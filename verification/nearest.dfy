/**
 * The nearest-timestamp loop shared, line for line, by the SMHI and
 * Met Norway clients: every entry whose time parses is ranked by its
 * absolute distance in seconds to the target, and the running minimum is
 * replaced only by a strictly smaller distance.
 */
module Nearest {
  import opened Outcomes

  /** Long.MAX_VALUE, the loop's initial `minDifference`. */
  const LongMax: int := 0x7FFF_FFFF_FFFF_FFFF

  /** `Math.abs(time.until(target, SECONDS))`. */
  function Distance(time: int, target: int): nat {
    if time <= target then target - time else time - target
  }

  /** The distance entry `j` is ranked by; only defined when its time parses. */
  function DistanceAt(times: seq<string>, parse: string -> Option<int>, target: int, j: int): nat
    requires 0 <= j < |times| && parse(times[j]).Some?
  {
    Distance(parse(times[j]).value, target)
  }

  /**
   * Entry `j` can be selected: its time parses, and its distance beats the
   * initial minimum (always so for times LocalDateTime can represent).
   */
  ghost predicate Eligible(times: seq<string>, parse: string -> Option<int>, target: int, j: int)
    requires 0 <= j < |times|
  {
    parse(times[j]).Some? && DistanceAt(times, parse, target, j) < LongMax
  }

  /** No entry can be selected (in particular, an empty series). */
  ghost predicate NoneEligible(times: seq<string>, parse: string -> Option<int>, target: int) {
    forall j :: 0 <= j < |times| ==> !Eligible(times, parse, target, j)
  }

  /**
   * Entry `k` is the first among the entries of minimal distance:
   * no eligible entry is closer, and every eligible entry before it is
   * strictly farther.
   */
  ghost predicate IsNearest(times: seq<string>, parse: string -> Option<int>, target: int, k: int) {
    && 0 <= k < |times|
    && Eligible(times, parse, target, k)
    && (forall j :: 0 <= j < |times| && Eligible(times, parse, target, j) ==>
          DistanceAt(times, parse, target, k) <= DistanceAt(times, parse, target, j))
    && (forall j :: 0 <= j < k && Eligible(times, parse, target, j) ==>
          DistanceAt(times, parse, target, k) < DistanceAt(times, parse, target, j))
  }

  /**
   * What the loop knows after visiting the first `i` entries: `closest`
   * is the nearest of them (or null when none was eligible) and
   * `minDifference` its distance (or Long.MAX_VALUE).
   */
  ghost predicate LoopState(times: seq<string>, parse: string -> Option<int>, target: int,
                            i: int, closest: Option<nat>, minDifference: int)
  {
    && 0 <= i <= |times|
    && match closest
       case None =>
         && minDifference == LongMax
         && forall j :: 0 <= j < i ==> !Eligible(times, parse, target, j)
       case Some(k) =>
         && k < i
         && Eligible(times, parse, target, k)
         && minDifference == DistanceAt(times, parse, target, k)
         && (forall j :: 0 <= j < i && Eligible(times, parse, target, j) ==>
               minDifference <= DistanceAt(times, parse, target, j))
         && (forall j :: 0 <= j < k && Eligible(times, parse, target, j) ==>
               minDifference < DistanceAt(times, parse, target, j))
  }

  /** One iteration of the loop body over entry `i`. */
  function Step(times: seq<string>, parse: string -> Option<int>, target: int,
                i: int, closest: Option<nat>, minDifference: int): (Option<nat>, int)
    requires 0 <= i < |times|
  {
    match parse(times[i])
    case None => (closest, minDifference)
    case Some(time) =>
      var difference := Distance(time, target);
      if difference < minDifference then (Some(i), difference) else (closest, minDifference)
  }

  /** The rest of the loop from entry `i` on, with the given running state. */
  function Scan(times: seq<string>, parse: string -> Option<int>, target: int,
                i: int, closest: Option<nat>, minDifference: int): Option<nat>
    requires 0 <= i <= |times|
    decreases |times| - i
  {
    if i == |times| then closest
    else
      var (closest', minDifference') := Step(times, parse, target, i, closest, minDifference);
      Scan(times, parse, target, i + 1, closest', minDifference')
  }

  /** The index the loop selects, or None for `closestTimeSeries == null`. */
  function Closest(times: seq<string>, parse: string -> Option<int>, target: int): Option<nat> {
    Scan(times, parse, target, 0, None, LongMax)
  }

  /** The loop body keeps `LoopState`. */
  lemma StepKeepsState(times: seq<string>, parse: string -> Option<int>, target: int,
                       i: int, closest: Option<nat>, minDifference: int)
    requires 0 <= i < |times|
    requires LoopState(times, parse, target, i, closest, minDifference)
    ensures var (c, m) := Step(times, parse, target, i, closest, minDifference);
            LoopState(times, parse, target, i + 1, c, m)
  {
  }

  /** Running the rest of the loop from a `LoopState` ends in the nearest entry. */
  lemma {:induction false} ScanFindsNearest(times: seq<string>, parse: string -> Option<int>, target: int,
                                            i: int, closest: Option<nat>, minDifference: int)
    requires LoopState(times, parse, target, i, closest, minDifference)
    ensures var r := Scan(times, parse, target, i, closest, minDifference);
            && (r.None? <==> NoneEligible(times, parse, target))
            && (r.Some? ==> IsNearest(times, parse, target, r.value))
    decreases |times| - i
  {
    if i < |times| {
      StepKeepsState(times, parse, target, i, closest, minDifference);
      var (c, m) := Step(times, parse, target, i, closest, minDifference);
      ScanFindsNearest(times, parse, target, i + 1, c, m);
    }
  }

  /** At most one entry is the nearest: the first-occurrence clause breaks ties. */
  lemma NearestIsUnique(times: seq<string>, parse: string -> Option<int>, target: int, k1: int, k2: int)
    requires IsNearest(times, parse, target, k1)
    requires IsNearest(times, parse, target, k2)
    ensures k1 == k2
  {
  }

  /**
   * The loop selects exactly the first entry of minimal distance, and
   * selects nothing exactly when no entry is eligible.
   */
  lemma ClosestIsNearest(times: seq<string>, parse: string -> Option<int>, target: int)
    ensures Closest(times, parse, target).None? <==> NoneEligible(times, parse, target)
    ensures forall k :: Closest(times, parse, target) == Some(k) <==> IsNearest(times, parse, target, k)
  {
    ScanFindsNearest(times, parse, target, 0, None, LongMax);
    var r := Closest(times, parse, target);
    forall k | IsNearest(times, parse, target, k)
      ensures r == Some(k)
    {
      assert Eligible(times, parse, target, k);
      NearestIsUnique(times, parse, target, r.value, k);
    }
  }

  /** The `for` loop of getSmhiData / getMetData, statement by statement. */
  method FindClosest(times: seq<string>, parse: string -> Option<int>, target: int)
      returns (closest: Option<nat>)
    ensures closest.None? <==> NoneEligible(times, parse, target)
    ensures closest.Some? ==> IsNearest(times, parse, target, closest.value)
    ensures closest == Closest(times, parse, target)
  {
    closest := None;
    var minDifference := LongMax;
    var i := 0;
    while i < |times|
      invariant LoopState(times, parse, target, i, closest, minDifference)
    {
      StepKeepsState(times, parse, target, i, closest, minDifference);
      match parse(times[i]) {
        case None =>
        case Some(time) =>
          var difference := Distance(time, target);
          if difference < minDifference {
            minDifference := difference;
            closest := Some(i);
          }
      }
      i := i + 1;
    }
    ScanFindsNearest(times, parse, target, |times|, closest, minDifference);
    ClosestIsNearest(times, parse, target);
    if closest.Some? {
      assert Closest(times, parse, target) == closest;
    }
  }

  /** One entry an hour before the target, one half an hour after: the later, nearer one is picked. */
  lemma NearerEntryWins(early: string, late: string, parse: string -> Option<int>, target: int)
    requires parse(early) == Some(target - 3600) && parse(late) == Some(target + 1800)
    ensures Closest([early, late], parse, target) == Some(1)
  {
    var times := [early, late];
    ClosestIsNearest(times, parse, target);
    assert times[0] == early && times[1] == late;
    assert IsNearest(times, parse, target, 1);
  }

  /** Two entries equally far from the target: the first one is kept. */
  lemma TieKeepsFirst(first: string, second: string, parse: string -> Option<int>, target: int, d: nat)
    requires d < LongMax
    requires parse(first) == Some(target - d) && parse(second) == Some(target + d)
    ensures Closest([first, second], parse, target) == Some(0)
  {
    var times := [first, second];
    ClosestIsNearest(times, parse, target);
    assert times[0] == first && times[1] == second;
    assert IsNearest(times, parse, target, 0);
  }

  /** An unparsable entry is passed over even when it comes first. */
  lemma UnparsableSkipped(bad: string, good: string, parse: string -> Option<int>, target: int)
    requires parse(bad).None? && parse(good) == Some(target)
    ensures Closest([bad, good], parse, target) == Some(1)
  {
    var times := [bad, good];
    ClosestIsNearest(times, parse, target);
    assert times[0] == bad && times[1] == good;
    assert IsNearest(times, parse, target, 1);
  }
}
