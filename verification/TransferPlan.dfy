/** Planning the data transfers that bring a required region to one location. */
module TransferPlan {

  type Location = nat

  /** A piece of a data item and the location that stores it; regions are sets of points. */
  datatype Part<T> = Part(region: set<T>, location: Location)

  datatype Mode = ReadOnly | ReadWrite

  datatype Kind = Replication | Migration

  datatype Transfer<T> = Transfer(region: set<T>, src: Location, dst: Location, kind: Kind)

  /** Everything stored at a location. */
  function HeldBy<T>(parts: seq<Part<T>>, l: Location): set<T> {
    if parts == [] then {}
    else
      var n := |parts| - 1;
      HeldBy(parts[..n], l) + if parts[n].location == l then parts[n].region else {}
  }

  /** Everything stored anywhere. */
  function Known<T>(parts: seq<Part<T>>): set<T> {
    if parts == [] then {} else Known(parts[..|parts| - 1]) + parts[|parts| - 1].region
  }

  /** Everything a plan transfers. */
  function Moved<T>(plan: seq<Transfer<T>>): set<T> {
    if plan == [] then {} else Moved(plan[..|plan| - 1]) + plan[|plan| - 1].region
  }

  /** Everything a plan takes from a location. */
  function TakenFrom<T>(plan: seq<Transfer<T>>, l: Location): set<T> {
    if plan == [] then {}
    else
      var n := |plan| - 1;
      TakenFrom(plan[..n], l) + if plan[n].src == l then plan[n].region else {}
  }

  lemma {:induction false} HeldByPart<T>(parts: seq<Part<T>>, i: nat)
    requires i < |parts|
    ensures parts[i].region <= HeldBy(parts, parts[i].location)
  {
    var n := |parts| - 1;
    if i < n {
      HeldByPart(parts[..n], i);
    }
  }

  lemma {:induction false} HeldIsKnown<T>(parts: seq<Part<T>>, l: Location)
    ensures HeldBy(parts, l) <= Known(parts)
  {
    if parts != [] {
      HeldIsKnown(parts[..|parts| - 1], l);
    }
  }

  lemma {:induction false} KnownIsHeld<T>(parts: seq<Part<T>>, x: T) returns (l: Location)
    requires x in Known(parts)
    ensures x in HeldBy(parts, l)
  {
    var n := |parts| - 1;
    if x in parts[n].region {
      l := parts[n].location;
    } else {
      l := KnownIsHeld(parts[..n], x);
    }
  }

  /** A transfer takes something from a part that has it and that is not at the target. */
  ghost predicate GoodTransfer<T>(t: Transfer<T>, parts: seq<Part<T>>, target: Location, mode: Mode) {
    && t.region != {} && t.dst == target && t.src != target
    && t.kind == (if mode == ReadOnly then Replication else Migration)
    && exists i :: 0 <= i < |parts| && parts[i].location == t.src && t.region <= parts[i].region
  }

  /** The transfers are good and do not overlap. */
  ghost predicate GoodPlan<T>(plan: seq<Transfer<T>>, parts: seq<Part<T>>, target: Location, mode: Mode) {
    && (forall k :: 0 <= k < |plan| ==> GoodTransfer(plan[k], parts, target, mode))
    && (forall j, k :: 0 <= j < k < |plan| ==> plan[j].region !! plan[k].region)
  }

  lemma {:induction false} MovedElement<T>(plan: seq<Transfer<T>>, k: nat)
    requires k < |plan|
    ensures plan[k].region <= Moved(plan)
  {
    var n := |plan| - 1;
    if k < n {
      MovedElement(plan[..n], k);
    }
  }

  lemma AddGood<T>(plan: seq<Transfer<T>>, t: Transfer<T>, parts: seq<Part<T>>, target: Location, mode: Mode)
    requires GoodPlan(plan, parts, target, mode) && GoodTransfer(t, parts, target, mode)
    requires t.region !! Moved(plan)
    ensures GoodPlan(plan + [t], parts, target, mode)
    ensures Moved(plan + [t]) == Moved(plan) + t.region
  {
    assert (plan + [t])[..|plan|] == plan;
    forall k: nat | k < |plan| ensures plan[k].region !! t.region {
      MovedElement(plan, k);
    }
  }

  /** The plan after the first `i` parts have been asked for what was missing. */
  ghost predicate Asked<T>(plan: seq<Transfer<T>>, parts: seq<Part<T>>, i: nat, missing: set<T>, target: Location, mode: Mode)
    requires i <= |parts|
  {
    GoodPlan(plan, parts, target, mode) && Moved(plan) == missing * Known(parts[..i])
  }

  lemma AskNext<T>(plan: seq<Transfer<T>>, parts: seq<Part<T>>, i: nat, missing: set<T>, target: Location, mode: Mode)
    requires i < |parts| && Asked(plan, parts, i, missing, target, mode) && missing !! HeldBy(parts, target)
    ensures var overlap := (missing - Moved(plan)) * parts[i].region;
            var t := Transfer(overlap, parts[i].location, target, if mode == ReadOnly then Replication else Migration);
            && (overlap == {} ==> Asked(plan, parts, i + 1, missing, target, mode))
            && (overlap != {} ==> Asked(plan + [t], parts, i + 1, missing, target, mode))
            && (overlap != {} ==> Moved(plan + [t]) == Moved(plan) + overlap)
  {
    var overlap := (missing - Moved(plan)) * parts[i].region;
    assert parts[..i + 1][..i] == parts[..i];
    assert missing * Known(parts[..i + 1]) == Moved(plan) + overlap;
    if overlap != {} {
      var t := Transfer(overlap, parts[i].location, target, if mode == ReadOnly then Replication else Migration);
      HeldByPart(parts, i);
      AddGood(plan, t, parts, target, mode);
    }
  }

  /** What is required but not held by the target. */
  method Strip<T>(parts: seq<Part<T>>, target: Location, region: set<T>) returns (rest: set<T>)
    ensures rest == region - HeldBy(parts, target)
  {
    rest := region;
    for i := 0 to |parts|
      invariant rest == region - HeldBy(parts[..i], target)
    {
      assert parts[..i + 1][..i] == parts[..i];
      if parts[i].location == target {
        rest := rest - parts[i].region;
      }
    }
    assert parts[..|parts|] == parts;
  }

  /** Takes what is missing from the parts in order. */
  method Ask<T>(parts: seq<Part<T>>, target: Location, missing: set<T>, mode: Mode) returns (plan: seq<Transfer<T>>)
    requires missing !! HeldBy(parts, target)
    ensures Asked(plan, parts, |parts|, missing, target, mode)
    ensures forall k :: 0 <= k < |plan| ==> TakesFirst(plan[k], parts, missing)
  {
    plan := [];
    var rest := missing;
    var kind := if mode == ReadOnly then Replication else Migration;
    for i := 0 to |parts|
      invariant rest == missing - Moved(plan)
      invariant Asked(plan, parts, i, missing, target, mode)
      invariant forall k :: 0 <= k < |plan| ==> TakesFirst(plan[k], parts, missing)
    {
      AskNext(plan, parts, i, missing, target, mode);
      var overlap := rest * parts[i].region;
      if overlap == {} {
        continue;
      }
      assert TakesFirst(Transfer(overlap, parts[i].location, target, kind), parts, missing) by {
        assert overlap == missing * parts[i].region - Known(parts[..i]);
      }
      plan := plan + [Transfer(overlap, parts[i].location, target, kind)];
      rest := rest - overlap;
    }
  }

  /** The transfer takes from a part exactly what is missing and not stored in any earlier part. */
  ghost predicate TakesFirst<T>(t: Transfer<T>, parts: seq<Part<T>>, missing: set<T>) {
    exists i :: 0 <= i < |parts| && t.src == parts[i].location && t.region == missing * parts[i].region - Known(parts[..i])
  }

  /** First strips what the target holds, then takes the rest from the parts in order. */
  method Plan<T>(parts: seq<Part<T>>, target: Location, region: set<T>, mode: Mode) returns (plan: seq<Transfer<T>>)
    ensures GoodPlan(plan, parts, target, mode)
    ensures Moved(plan) == (region - HeldBy(parts, target)) * Known(parts)
    ensures forall k :: 0 <= k < |plan| ==> TakesFirst(plan[k], parts, region - HeldBy(parts, target))
  {
    var rest := Strip(parts, target, region);
    if rest == {} {
      return [];
    }
    plan := Ask(parts, target, rest, mode);
    assert parts[..|parts|] == parts;
  }

  // --- ownership after a migration ---

  /** No point is stored at two locations. */
  ghost predicate Exclusive<T(!new)>(parts: seq<Part<T>>) {
    forall l, k: Location :: l != k ==> HeldBy(parts, l) !! HeldBy(parts, k)
  }

  /** What a location stores once the plan has been carried out by moving data. */
  function HeldAfter<T>(parts: seq<Part<T>>, plan: seq<Transfer<T>>, target: Location, l: Location): set<T> {
    if l == target then HeldBy(parts, l) + Moved(plan) else HeldBy(parts, l) - TakenFrom(plan, l)
  }

  lemma {:induction false} TakenIsHeld<T>(parts: seq<Part<T>>, plan: seq<Transfer<T>>, target: Location, mode: Mode, l: Location)
    requires GoodPlan(plan, parts, target, mode)
    ensures TakenFrom(plan, l) <= HeldBy(parts, l) && TakenFrom(plan, l) <= Moved(plan)
  {
    if plan != [] {
      var n := |plan| - 1;
      TakenIsHeld(parts, plan[..n], target, mode, l);
      assert GoodTransfer(plan[n], parts, target, mode);
      var i :| 0 <= i < |parts| && parts[i].location == plan[n].src && plan[n].region <= parts[i].region;
      HeldByPart(parts, i);
    }
  }

  /** Only what is stored somewhere is moved. */
  lemma {:induction false} MovedIsKnown<T>(parts: seq<Part<T>>, plan: seq<Transfer<T>>, target: Location, mode: Mode)
    requires GoodPlan(plan, parts, target, mode)
    ensures Moved(plan) <= Known(parts)
  {
    if plan != [] {
      var n := |plan| - 1;
      MovedIsKnown(parts, plan[..n], target, mode);
      assert GoodTransfer(plan[n], parts, target, mode);
      var i :| 0 <= i < |parts| && parts[i].location == plan[n].src && plan[n].region <= parts[i].region;
      HeldByPart(parts, i);
      HeldIsKnown(parts, parts[i].location);
    }
  }

  /** What is moved from an exclusive owner is taken from it. */
  lemma {:induction false} MovedIsTaken<T(!new)>(parts: seq<Part<T>>, plan: seq<Transfer<T>>, target: Location, mode: Mode, l: Location)
    requires GoodPlan(plan, parts, target, mode) && Exclusive(parts)
    ensures Moved(plan) * HeldBy(parts, l) == TakenFrom(plan, l)
  {
    TakenIsHeld(parts, plan, target, mode, l);
    if plan != [] {
      var n := |plan| - 1;
      MovedIsTaken(parts, plan[..n], target, mode, l);
      assert GoodTransfer(plan[n], parts, target, mode);
      var i :| 0 <= i < |parts| && parts[i].location == plan[n].src && plan[n].region <= parts[i].region;
      HeldByPart(parts, i);
    }
  }

  lemma ExclusiveAfter<T(!new)>(parts: seq<Part<T>>, plan: seq<Transfer<T>>, target: Location, l: Location, k: Location)
    requires Exclusive(parts) && GoodPlan(plan, parts, target, ReadWrite) && l != k
    ensures HeldAfter(parts, plan, target, l) !! HeldAfter(parts, plan, target, k)
  {
    MovedIsTaken(parts, plan, target, ReadWrite, l);
    MovedIsTaken(parts, plan, target, ReadWrite, k);
  }

  /** `l` is the one location that stores `x` after the plan has been carried out. */
  ghost predicate SoleOwnerAfter<T>(parts: seq<Part<T>>, plan: seq<Transfer<T>>, target: Location, x: T, l: Location) {
    && x in HeldAfter(parts, plan, target, l)
    && forall k :: k != l ==> x !in HeldAfter(parts, plan, target, k)
  }

  /** Migration keeps every stored point at exactly one location: the target for the points it
      moves, the previous owner for all others. Points stored nowhere stay that way. */
  lemma MigrationKeepsOwnership<T(!new)>(parts: seq<Part<T>>, plan: seq<Transfer<T>>, target: Location, x: T)
    requires Exclusive(parts) && GoodPlan(plan, parts, target, ReadWrite)
    ensures x in Known(parts) <==> exists l :: SoleOwnerAfter(parts, plan, target, x, l)
    ensures x in Moved(plan) ==> SoleOwnerAfter(parts, plan, target, x, target)
    ensures forall l :: x in HeldBy(parts, l) && x !in Moved(plan) ==> SoleOwnerAfter(parts, plan, target, x, l)
  {
    MovedIsKnown(parts, plan, target, ReadWrite);
    forall l | x in HeldAfter(parts, plan, target, l)
      ensures SoleOwnerAfter(parts, plan, target, x, l) && x in Known(parts)
    {
      HeldIsKnown(parts, l);
      forall k | k != l ensures x !in HeldAfter(parts, plan, target, k) {
        ExclusiveAfter(parts, plan, target, l, k);
      }
    }
    forall l | x in HeldBy(parts, l) && x !in Moved(plan) ensures x in HeldAfter(parts, plan, target, l) {
      TakenIsHeld(parts, plan, target, ReadWrite, l);
    }
    if x in Known(parts) {
      var l := KnownIsHeld(parts, x);
      assert SoleOwnerAfter(parts, plan, target, x, if x in Moved(plan) then target else l);
    }
  }

  /** After a migration the target stores everything it requires that is stored anywhere. */
  lemma MigrationServesTarget<T>(parts: seq<Part<T>>, plan: seq<Transfer<T>>, target: Location, region: set<T>)
    requires Moved(plan) == (region - HeldBy(parts, target)) * Known(parts)
    ensures region * Known(parts) <= HeldAfter(parts, plan, target, target)
  {
  }
}
