/** Dividing one receive budget among capped paths. */
module WaterFilling {
  import opened Numerals

  const MAXIMUM_AGGREGATE_BURST_BYTES := 262_144

  datatype Share = Share(rate: u64, burst: nat)

  // Reference: fill every path to one level, then one more byte each to the earliest paths that can take it

  /** Bytes used when every path is filled to `level`. */
  function FillTo(caps: seq<u64>, level: nat): (n: nat) {
    if caps == [] then 0 else FillTo(caps[..|caps| - 1], level) + Min(caps[|caps| - 1], level)
  }

  /** Paths that could take more than `level`. */
  function Unsaturated(caps: seq<u64>, level: nat): (n: nat)
    ensures n <= |caps|
  {
    if caps == [] then 0 else Unsaturated(caps[..|caps| - 1], level) + if caps[|caps| - 1] > level then 1 else 0
  }

  function Sum(xs: seq<u64>): (n: nat) {
    if xs == [] then 0 else Sum(xs[..|xs| - 1]) + xs[|xs| - 1]
  }

  function Highest(caps: seq<u64>): (m: u64)
    ensures forall i :: 0 <= i < |caps| ==> caps[i] <= m
    ensures caps != [] ==> m in caps
  {
    if caps == [] then 0
    else
      var m := Highest(caps[..|caps| - 1]);
      assert forall i :: 0 <= i < |caps| - 1 ==> caps[i] == caps[..|caps| - 1][i];
      if m > caps[|caps| - 1] then m else caps[|caps| - 1]
  }

  /** The highest level up to `limit` that the total can pay for. */
  function LevelUpTo(total: nat, caps: seq<u64>, limit: nat): (level: nat)
    ensures level <= limit
    ensures level > 0 ==> FillTo(caps, level) <= total
    ensures level < limit ==> FillTo(caps, level + 1) > total
  {
    if limit == 0 || FillTo(caps, limit) <= total then limit
    else
      var level := LevelUpTo(total, caps, limit - 1);
      level
  }

  function Level(total: nat, caps: seq<u64>): (level: nat) {
    LevelUpTo(total, caps, Highest(caps))
  }

  /** One of `left` spare bytes goes to path `i` if it can take more and fewer than `left` such paths come before it. */
  function Extra(caps: seq<u64>, level: nat, left: int, i: nat): (r: nat)
    requires i < |caps|
  {
    if caps[i] > level && Unsaturated(caps[..i], level) < left then 1 else 0
  }

  /** What path `i` is due. */
  function Rate(total: nat, caps: seq<u64>, i: nat): (r: nat)
    requires i < |caps|
  {
    var level := Level(total, caps);
    Min(caps[i], level) + Extra(caps, level, total - FillTo(caps, level), i)
  }

  // Properties of filling

  lemma {:induction false} FillOneMore(caps: seq<u64>, level: nat)
    ensures FillTo(caps, level + 1) == FillTo(caps, level) + Unsaturated(caps, level)
  {
    if caps == [] {
    } else {
      FillOneMore(caps[..|caps| - 1], level);
    }
  }

  lemma {:induction false} FillIsMonotone(caps: seq<u64>, low: nat, high: nat)
    requires low <= high
    ensures FillTo(caps, low) <= FillTo(caps, high)
    ensures Unsaturated(caps, high) <= Unsaturated(caps, low)
  {
    if caps == [] {
    } else {
      FillIsMonotone(caps[..|caps| - 1], low, high);
    }
  }

  lemma {:induction false} FillAtZero(caps: seq<u64>)
    ensures FillTo(caps, 0) == 0
  {
    if caps == [] {
    } else {
      FillAtZero(caps[..|caps| - 1]);
    }
  }

  lemma {:induction false} FillSaturated(caps: seq<u64>, level: nat)
    requires forall i :: 0 <= i < |caps| ==> caps[i] <= level
    ensures FillTo(caps, level) == Sum(caps) && Unsaturated(caps, level) == 0
  {
    if caps == [] {
    } else {
      FillSaturated(caps[..|caps| - 1], level);
    }
  }

  lemma {:induction false} NoneUnsaturated(caps: seq<u64>, level: nat)
    requires Unsaturated(caps, level) == 0
    ensures forall i :: 0 <= i < |caps| ==> caps[i] <= level
  {
    if caps == [] {
    } else {
      NoneUnsaturated(caps[..|caps| - 1], level);
      assert forall i :: 0 <= i < |caps| - 1 ==> caps[..|caps| - 1][i] == caps[i];
    }
  }

  lemma LevelIsAffordable(total: nat, caps: seq<u64>)
    ensures FillTo(caps, Level(total, caps)) <= total
  {
    FillAtZero(caps);
  }

  /** The level is the only one that is affordable while the next is not, or the highest cap if all can be paid. */
  lemma LevelIsUnique(total: nat, caps: seq<u64>, level: nat)
    requires FillTo(caps, level) <= total && level <= Highest(caps)
    requires level == Highest(caps) || FillTo(caps, level + 1) > total
    ensures level == Level(total, caps)
  {
    var best := Level(total, caps);
    LevelIsAffordable(total, caps);
    if level < best {
      FillIsMonotone(caps, level + 1, best);
    } else if best < level {
      FillIsMonotone(caps, best + 1, level);
    }
  }

  // One pass of the loop

  /** Bytes granted to the first `j` paths in a pass that offers `share` to each while `remaining` lasts. */
  function Granted(caps: seq<u64>, rates: seq<u64>, share: nat, remaining: nat, j: nat): (g: nat)
    requires j <= |caps| == |rates| && forall i :: 0 <= i < |caps| ==> rates[i] <= caps[i]
    ensures g <= remaining
  {
    if j == 0 then 0
    else
      var before := Granted(caps, rates, share, remaining, j - 1);
      before + Min(Min(share, caps[j - 1] - rates[j - 1]), remaining - before)
  }

  /** `end` is what a pass makes of `start`. */
  ghost predicate Passed(caps: seq<u64>, start: seq<u64>, end: seq<u64>, share: nat, remaining: nat) {
    && |start| == |end| == |caps|
    && (forall i :: 0 <= i < |caps| ==> start[i] <= caps[i])
    && (forall i :: 0 <= i < |caps| ==>
          end[i] == start[i] + Granted(caps, start, share, remaining, i + 1)
                    - Granted(caps, start, share, remaining, i))
  }

  method Pass(caps: seq<u64>, rates: array<u64>, share: nat, remaining: nat) returns (left: nat)
    requires rates.Length == |caps| && forall i :: 0 <= i < |caps| ==> rates[i] <= caps[i]
    modifies rates
    ensures forall i :: 0 <= i < |caps| ==> rates[i] <= caps[i]
    ensures left == remaining - Granted(caps, old(rates[..]), share, remaining, |caps|)
    ensures Passed(caps, old(rates[..]), rates[..], share, remaining)
  {
    left := remaining;
    ghost var start := rates[..];
    for j := 0 to |caps|
      invariant left == remaining - Granted(caps, start, share, remaining, j)
      invariant forall i :: j <= i < |caps| ==> rates[i] == start[i]
      invariant forall i :: 0 <= i < |caps| ==> rates[i] <= caps[i]
      invariant forall i :: 0 <= i < j ==>
                  rates[i] == start[i] + Granted(caps, start, share, remaining, i + 1)
                              - Granted(caps, start, share, remaining, i)
    {
      var added := Min(Min(share, caps[j] - rates[j]), left);
      rates[j] := rates[j] + added;
      left := left - added;
    }
  }

  ghost predicate FilledTo(caps: seq<u64>, rates: seq<u64>, level: nat) {
    |rates| == |caps| && forall i :: 0 <= i < |caps| ==> rates[i] == Min(caps[i], level)
  }

  /** Bytes needed to raise the level by `share`. */
  function RaiseCost(caps: seq<u64>, level: nat, share: nat): (n: int) {
    FillTo(caps, level + share) - FillTo(caps, level)
  }

  lemma {:induction false} RaiseCostOfPrefix(caps: seq<u64>, level: nat, share: nat, j: nat)
    requires j <= |caps|
    ensures RaiseCost(caps[..j], level, share) <= RaiseCost(caps, level, share)
    decreases |caps|
  {
    if j == |caps| {
      assert caps[..j] == caps;
    } else {
      assert caps[..|caps| - 1][..j] == caps[..j];
      RaiseCostOfPrefix(caps[..|caps| - 1], level, share, j);
    }
  }

  lemma OneMoreShare(share: nat, n: nat)
    ensures share * (n + 1) == share * n + share
  {}

  lemma {:induction false} RaiseCostIsBounded(caps: seq<u64>, level: nat, share: nat)
    ensures RaiseCost(caps, level, share) <= share * Unsaturated(caps, level)
  {
    if caps == [] {
    } else {
      var front := caps[..|caps| - 1];
      RaiseCostIsBounded(front, level, share);
      OneMoreShare(share, Unsaturated(front, level));
    }
  }

  /** While the budget covers it, a pass raises the common level by the share. */
  lemma {:induction false} FullPass(caps: seq<u64>, rates: seq<u64>, level: nat, share: nat, remaining: nat, j: nat)
    requires FilledTo(caps, rates, level) && j <= |caps|
    requires RaiseCost(caps, level, share) <= remaining
    ensures Granted(caps, rates, share, remaining, j) == RaiseCost(caps[..j], level, share)
    decreases j
  {
    if j == 0 {
    } else {
      FullPass(caps, rates, level, share, remaining, j - 1);
      var front := caps[..j];
      assert front[..j - 1] == caps[..j - 1] && front[j - 1] == caps[j - 1];
      RaiseCostOfPrefix(caps, level, share, j);
    }
  }

  /** When it no longer covers one byte each, the earliest unsaturated paths get the last bytes. */
  lemma {:induction false} LastPass(caps: seq<u64>, rates: seq<u64>, level: nat, remaining: nat, j: nat)
    requires FilledTo(caps, rates, level) && j <= |caps|
    ensures Granted(caps, rates, 1, remaining, j) == Min(remaining, Unsaturated(caps[..j], level))
    decreases j
  {
    if j == 0 {
    } else {
      LastPass(caps, rates, level, remaining, j - 1);
      var front := caps[..j];
      assert front[..j - 1] == caps[..j - 1] && front[j - 1] == caps[j - 1];
    }
  }

  lemma FullPassRates(caps: seq<u64>, rates: seq<u64>, level: nat, share: nat, remaining: nat, i: nat)
    requires FilledTo(caps, rates, level) && i < |caps| && RaiseCost(caps, level, share) <= remaining
    ensures rates[i] + Granted(caps, rates, share, remaining, i + 1) - Granted(caps, rates, share, remaining, i)
         == Min(caps[i], level + share)
  {
    FullPass(caps, rates, level, share, remaining, i);
    FullPass(caps, rates, level, share, remaining, i + 1);
    assert caps[..i + 1][..i] == caps[..i];
  }

  lemma LastPassRates(caps: seq<u64>, rates: seq<u64>, level: nat, remaining: nat, i: nat)
    requires FilledTo(caps, rates, level) && i < |caps|
    ensures rates[i] + Granted(caps, rates, 1, remaining, i + 1) - Granted(caps, rates, 1, remaining, i)
         == Min(caps[i], level) + Extra(caps, level, remaining, i)
  {
    LastPass(caps, rates, level, remaining, i);
    LastPass(caps, rates, level, remaining, i + 1);
    assert caps[..i + 1][..i] == caps[..i];
  }

  lemma FullPassFills(caps: seq<u64>, start: seq<u64>, end: seq<u64>, level: nat, share: nat, remaining: nat)
    requires FilledTo(caps, start, level) && RaiseCost(caps, level, share) <= remaining
    requires Passed(caps, start, end, share, remaining)
    ensures FilledTo(caps, end, level + share)
    ensures Granted(caps, start, share, remaining, |caps|) == RaiseCost(caps, level, share)
  {
    assert caps[..|caps|] == caps;
    FullPass(caps, start, level, share, remaining, |caps|);
    forall i | 0 <= i < |caps| ensures end[i] == Min(caps[i], level + share) {
      FullPassRates(caps, start, level, share, remaining, i);
    }
  }

  /** A pass at the last bytes ends exactly at what the reference says. */
  lemma LastPassIsDue(total: nat, caps: seq<u64>, level: nat)
    requires FillTo(caps, level) <= total && total - FillTo(caps, level) < Unsaturated(caps, level)
    ensures level == Level(total, caps)
  {
    FillOneMore(caps, level);
    if level > Highest(caps) {
      FillSaturated(caps, level);
    }
    LevelIsUnique(total, caps, level);
  }

  lemma LastPassSettles(total: nat, caps: seq<u64>, start: seq<u64>, end: seq<u64>, level: nat)
    requires FilledTo(caps, start, level) && FillTo(caps, level) <= total
    requires total - FillTo(caps, level) < Unsaturated(caps, level)
    requires Passed(caps, start, end, 1, total - FillTo(caps, level))
    ensures forall i :: 0 <= i < |caps| ==> end[i] == Rate(total, caps, i)
    ensures Granted(caps, start, 1, total - FillTo(caps, level), |caps|) == total - FillTo(caps, level)
  {
    var remaining := total - FillTo(caps, level);
    assert caps[..|caps|] == caps;
    LastPass(caps, start, level, remaining, |caps|);
    LastPassIsDue(total, caps, level);
    forall i | 0 <= i < |caps| ensures end[i] == Rate(total, caps, i) {
      LastPassRates(caps, start, level, remaining, i);
    }
  }

  /** With the budget used up or every path saturated, being filled to a level is what the reference says. */
  lemma FilledIsDue(total: nat, caps: seq<u64>, level: nat, i: nat)
    requires FillTo(caps, level) <= total && i < |caps|
    requires FillTo(caps, level) == total || Unsaturated(caps, level) == 0
    ensures Min(caps[i], level) == Rate(total, caps, i)
  {
    if Unsaturated(caps, level) == 0 {
      NoneUnsaturated(caps, level);
      FillSaturated(caps, level);
      FillSaturated(caps, Highest(caps));
      LevelIsUnique(total, caps, Highest(caps));
    } else {
      if level > Highest(caps) {
        FillSaturated(caps, level);
      }
      FillOneMore(caps, level);
      LevelIsUnique(total, caps, level);
    }
  }

  lemma FilledSettles(total: nat, caps: seq<u64>, rates: seq<u64>, level: nat)
    requires FilledTo(caps, rates, level) && FillTo(caps, level) <= total
    requires FillTo(caps, level) == total || Unsaturated(caps, level) == 0
    ensures forall i :: 0 <= i < |caps| ==> rates[i] == Rate(total, caps, i)
  {
    forall i | 0 <= i < |caps| ensures rates[i] == Rate(total, caps, i) {
      FilledIsDue(total, caps, level, i);
    }
  }

  method CountEligible(caps: seq<u64>, rates: array<u64>, ghost level: nat) returns (n: nat)
    requires FilledTo(caps, rates[..], level)
    ensures n == Unsaturated(caps, level)
  {
    n := 0;
    for j := 0 to |caps|
      invariant n == Unsaturated(caps[..j], level)
    {
      assert caps[..j + 1][..j] == caps[..j];
      assert rates[j] == rates[..][j];
      if rates[j] < caps[j] {
        n := n + 1;
      }
    }
    assert caps[..|caps|] == caps;
  }

  /** Passes still possible: one per unsaturated path, plus one that saturates none and one for the last bytes. */
  function PassesLeft(eligible: nat, remaining: nat): (n: nat) {
    if remaining == 0 || eligible == 0 then 0 else if remaining < eligible then 1 else eligible + 1
  }

  /** The share offered to each eligible path in a pass. */
  function FairShare(remaining: nat, eligible: nat): (share: nat)
    requires eligible > 0
    ensures remaining < eligible ==> share == 1
    ensures share >= 1
  {
    Max(remaining / eligible, 1)
  }

  lemma DivisionBounds(remaining: nat, eligible: nat, share: nat)
    requires 0 < eligible <= remaining && share == FairShare(remaining, eligible)
    ensures 1 <= share && share * eligible <= remaining < share * eligible + eligible
  {
    var quotient := remaining / eligible;
    assert remaining == quotient * eligible + remaining % eligible;
    assert quotient < 1 ==> quotient * eligible <= 0;
  }

  lemma {:induction false} RaiseCostIsExact(caps: seq<u64>, level: nat, share: nat)
    requires Unsaturated(caps, level + share) == Unsaturated(caps, level)
    ensures RaiseCost(caps, level, share) == share * Unsaturated(caps, level)
  {
    if caps == [] {
    } else {
      var front := caps[..|caps| - 1];
      FillIsMonotone(front, level, level + share);
      RaiseCostIsExact(front, level, share);
      OneMoreShare(share, Unsaturated(front, level));
    }
  }

  /** A full pass either saturates a path or leaves less than a byte each. */
  lemma FullPassProgress(caps: seq<u64>, level: nat, remaining: nat, share: nat)
    requires 0 < Unsaturated(caps, level) <= remaining && share == FairShare(remaining, Unsaturated(caps, level))
    ensures 0 < RaiseCost(caps, level, share) <= remaining
    ensures PassesLeft(Unsaturated(caps, level + share), remaining - RaiseCost(caps, level, share))
          < PassesLeft(Unsaturated(caps, level), remaining)
  {
    var eligible := Unsaturated(caps, level);
    DivisionBounds(remaining, eligible, share);
    RaiseCostIsBounded(caps, level, share);
    FillOneMore(caps, level);
    FillIsMonotone(caps, level + 1, level + share);
    FillIsMonotone(caps, level, level + share);
    if Unsaturated(caps, level + share) == eligible {
      RaiseCostIsExact(caps, level, share);
    }
  }

  /** Between passes: every path is filled to one level and the rest of the total remains. */
  ghost predicate Filling(total: nat, caps: seq<u64>, rates: seq<u64>, level: nat, remaining: nat) {
    FilledTo(caps, rates, level) && FillTo(caps, level) + remaining == total
  }

  ghost predicate Settled(total: nat, caps: seq<u64>, rates: seq<u64>) {
    |rates| == |caps| && forall i :: 0 <= i < |caps| ==> rates[i] == Rate(total, caps, i)
  }

  lemma FullStep(
      total: nat, caps: seq<u64>, start: seq<u64>, end: seq<u64>, level: nat, share: nat, before: nat, after: nat)
    requires Filling(total, caps, start, level, before) && 0 < Unsaturated(caps, level) <= before
    requires share == FairShare(before, Unsaturated(caps, level)) && Passed(caps, start, end, share, before)
    requires after == before - Granted(caps, start, share, before, |caps|)
    ensures after < before && Filling(total, caps, end, level + share, after)
    ensures PassesLeft(Unsaturated(caps, level + share), after) < PassesLeft(Unsaturated(caps, level), before)
  {
    FullPassProgress(caps, level, before, share);
    FullPassFills(caps, start, end, level, share, before);
  }

  lemma LastStep(total: nat, caps: seq<u64>, start: seq<u64>, end: seq<u64>, level: nat, before: nat, after: nat)
    requires Filling(total, caps, start, level, before) && 0 < before < Unsaturated(caps, level)
    requires Passed(caps, start, end, 1, before) && after == before - Granted(caps, start, 1, before, |caps|)
    ensures after == 0 && Settled(total, caps, end)
  {
    LastPassSettles(total, caps, start, end, level);
  }

  lemma NoStep(total: nat, caps: seq<u64>, rates: seq<u64>, level: nat, remaining: nat)
    requires Filling(total, caps, rates, level, remaining) && (remaining == 0 || Unsaturated(caps, level) == 0)
    ensures Settled(total, caps, rates)
  {
    FilledSettles(total, caps, rates, level);
  }

  /** What holds between passes: the paths are filled to a level, or the last bytes have been handed out. */
  ghost predicate Underway(total: nat, caps: seq<u64>, rates: seq<u64>, level: nat, remaining: nat, settled: bool,
                           passes: nat)
  {
    && |rates| == |caps| && (forall i :: 0 <= i < |caps| ==> rates[i] <= caps[i])
    && (settled ==> remaining == 0 && Settled(total, caps, rates) && passes <= |caps| + 1)
    && (!settled ==> Filling(total, caps, rates, level, remaining)
                     && passes + PassesLeft(Unsaturated(caps, level), remaining) <= |caps| + 1)
  }

  lemma UnderwayStart(total: nat, caps: seq<u64>, rates: seq<u64>)
    requires |rates| == |caps| && forall i :: 0 <= i < |caps| ==> rates[i] == 0
    ensures Underway(total, caps, rates, 0, total, false, 0)
  {
    FillAtZero(caps);
  }

  lemma UnderwayStep(total: nat, caps: seq<u64>, start: seq<u64>, end: seq<u64>, level: nat, before: nat,
                     after: nat, passes: nat, next: nat, full: bool)
    requires Underway(total, caps, start, level, before, false, passes) && before > 0 && Unsaturated(caps, level) > 0
    requires Passed(caps, start, end, FairShare(before, Unsaturated(caps, level)), before)
    requires after == before - Granted(caps, start, FairShare(before, Unsaturated(caps, level)), before, |caps|)
    requires |end| == |caps| && forall i :: 0 <= i < |caps| ==> end[i] <= caps[i]
    requires full == (before >= Unsaturated(caps, level))
    requires next == if full then level + FairShare(before, Unsaturated(caps, level)) else level
    ensures after < before && Underway(total, caps, end, next, after, !full, passes + 1)
  {
    if before >= Unsaturated(caps, level) {
      FullStep(total, caps, start, end, level, FairShare(before, Unsaturated(caps, level)), before, after);
    } else {
      LastStep(total, caps, start, end, level, before, after);
    }
  }

  // The passes made

  /** Paths not yet at their cap. */
  ghost function Eligible(caps: seq<u64>, rates: seq<u64>): (n: nat)
    requires |rates| == |caps|
  {
    if caps == [] then 0
    else
      var last := |caps| - 1;
      Eligible(caps[..last], rates[..last]) + if rates[last] < caps[last] then 1 else 0
  }

  /** One pass: with something left of the total and a path not at its cap, what is left is offered to those paths in
      equal shares, a byte at least, while it lasts. */
  ghost predicate IsPass(total: nat, caps: seq<u64>, start: seq<u64>, end: seq<u64>) {
    && |start| == |caps|
    && total > Sum(start) && Eligible(caps, start) > 0
    && var remaining := total - Sum(start);
       Passed(caps, start, end, FairShare(remaining, Eligible(caps, start)), remaining)
  }

  /** The rates after each pass, from nothing. */
  ghost predicate IsTrace(total: nat, caps: seq<u64>, trace: seq<seq<u64>>) {
    && trace != [] && |trace[0]| == |caps| && (forall i :: 0 <= i < |caps| ==> trace[0][i] == 0)
    && forall i :: 0 < i < |trace| ==> IsPass(total, caps, trace[i - 1], trace[i])
  }

  lemma {:induction false} FilledIsCounted(caps: seq<u64>, rates: seq<u64>, level: nat)
    requires FilledTo(caps, rates, level)
    ensures Sum(rates) == FillTo(caps, level) && Eligible(caps, rates) == Unsaturated(caps, level)
  {
    if caps == [] {
    } else {
      FilledIsCounted(caps[..|caps| - 1], rates[..|rates| - 1], level);
    }
  }

  lemma TraceGrows(total: nat, caps: seq<u64>, trace: seq<seq<u64>>, end: seq<u64>)
    requires IsTrace(total, caps, trace) && IsPass(total, caps, trace[|trace| - 1], end)
    ensures IsTrace(total, caps, trace + [end])
  {
    var more := trace + [end];
    forall i | 0 < i < |more| ensures IsPass(total, caps, more[i - 1], more[i]) {
      assert i < |trace| ==> IsPass(total, caps, trace[i - 1], trace[i]);
    }
  }

  lemma StepIsPass(total: nat, caps: seq<u64>, start: seq<u64>, end: seq<u64>, level: nat, before: nat, passes: nat)
    requires Underway(total, caps, start, level, before, false, passes) && before > 0 && Unsaturated(caps, level) > 0
    requires Passed(caps, start, end, FairShare(before, Unsaturated(caps, level)), before)
    ensures IsPass(total, caps, start, end)
  {
    FilledIsCounted(caps, start, level);
  }

  /** Where the loop is: the passes made so far lead to the present rates. */
  ghost predicate Traced(total: nat, caps: seq<u64>, rates: seq<u64>, level: nat, remaining: nat, settled: bool,
                         trace: seq<seq<u64>>)
  {
    && IsTrace(total, caps, trace) && trace[|trace| - 1] == rates
    && Underway(total, caps, rates, level, remaining, settled, |trace| - 1)
  }

  lemma TracedStart(total: nat, caps: seq<u64>, rates: seq<u64>)
    requires |rates| == |caps| && forall i :: 0 <= i < |caps| ==> rates[i] == 0
    ensures Traced(total, caps, rates, 0, total, false, [rates])
  {
    UnderwayStart(total, caps, rates);
  }

  lemma TracedStep(total: nat, caps: seq<u64>, start: seq<u64>, end: seq<u64>, level: nat, before: nat, after: nat,
                   trace: seq<seq<u64>>, next: nat, full: bool)
    requires Traced(total, caps, start, level, before, false, trace) && before > 0 && Unsaturated(caps, level) > 0
    requires Passed(caps, start, end, FairShare(before, Unsaturated(caps, level)), before)
    requires after == before - Granted(caps, start, FairShare(before, Unsaturated(caps, level)), before, |caps|)
    requires |end| == |caps| && forall i :: 0 <= i < |caps| ==> end[i] <= caps[i]
    requires full == (before >= Unsaturated(caps, level))
    requires next == if full then level + FairShare(before, Unsaturated(caps, level)) else level
    ensures after < before && Traced(total, caps, end, next, after, !full, trace + [end])
  {
    StepIsPass(total, caps, start, end, level, before, |trace| - 1);
    TraceGrows(total, caps, trace, end);
    UnderwayStep(total, caps, start, end, level, before, after, |trace| - 1, next, full);
  }

  /** One turn of the loop: a pass, or the end where every path is at its cap. */
  method FillOnce(caps: seq<u64>, rates: array<u64>, remaining: nat, ghost total: nat, ghost level: nat,
                  ghost trace: seq<seq<u64>>) returns (left: nat, passed: bool, ghost next: nat, ghost settled: bool)
    requires Traced(total, caps, rates[..], level, remaining, false, trace) && remaining > 0
    modifies rates
    ensures passed ==> left < remaining && Traced(total, caps, rates[..], next, left, settled, trace + [rates[..]])
    ensures !passed ==> rates[..] == old(rates[..]) && Settled(total, caps, rates[..])
  {
    left, next, settled := remaining, level, false;
    var eligible := CountEligible(caps, rates, level);
    passed := eligible > 0;
    if passed {
      var share := FairShare(remaining, eligible);
      left := Pass(caps, rates, share, remaining);
      settled := remaining < eligible;
      next := if settled then level else level + share;
      TracedStep(total, caps, old(rates[..]), rates[..], level, remaining, left, trace, next, !settled);
    } else {
      NoStep(total, caps, rates[..], level, remaining);
    }
  }

  lemma TracedIsShort(total: nat, caps: seq<u64>, rates: seq<u64>, level: nat, remaining: nat, settled: bool,
                      trace: seq<seq<u64>>)
    requires Traced(total, caps, rates, level, remaining, settled, trace)
    ensures |trace| - 1 <= |caps| + 1 && (remaining == 0 ==> Settled(total, caps, rates))
    ensures remaining > 0 ==> !settled
  {
    if remaining == 0 && !settled {
      NoStep(total, caps, rates, level, 0);
    }
  }

  /** The filling loop. Each rate is exactly what the reference says; there is at most one pass more than paths. */
  method FillRates(total: u64, caps: seq<u64>) returns (rates: array<u64>, ghost trace: seq<seq<u64>>)
    ensures fresh(rates) && Settled(total, caps, rates[..])
    ensures IsTrace(total, caps, trace) && trace[|trace| - 1] == rates[..]
    ensures |trace| - 1 <= |caps| + 1
  {
    rates := new u64[|caps|](_ => 0);
    trace := [rates[..]];
    TracedStart(total, caps, rates[..]);
    var remaining: nat := total;
    ghost var level: nat, settled := 0, false;
    while remaining > 0
      invariant Traced(total, caps, rates[..], level, remaining, settled, trace)
    {
      TracedIsShort(total, caps, rates[..], level, remaining, settled, trace);
      var passed;
      remaining, passed, level, settled := FillOnce(caps, rates, remaining, total, level, trace);
      if !passed {
        return;
      }
      trace := trace + [rates[..]];
    }
    TracedIsShort(total, caps, rates[..], level, remaining, settled, trace);
  }

  lemma BurstFits(n: nat, burst: nat)
    requires 1 <= n <= 128 && burst == Min(Max(MAXIMUM_AGGREGATE_BURST_BYTES / n, 2048), 65_536)
    ensures 2048 <= burst <= 65_536 && n * burst <= 262_144
    ensures burst == 65_536 || n * (burst + 1) > 262_144
  {
    var q := MAXIMUM_AGGREGATE_BURST_BYTES / n;
    assert n * q <= MAXIMUM_AGGREGATE_BURST_BYTES;
    assert n * (q + 1) > MAXIMUM_AGGREGATE_BURST_BYTES;
    assert q < 2048 ==> n * (q + 1) <= 128 * 2048;
    assert n * burst <= n * q;
  }

  /** The allocator: exact rates, and for each path the largest burst up to 65536 of which all together stay within the
      aggregate allowance. */
  method AllocateReceiveBudget(total: u64, caps: seq<u64>) returns (shares: seq<Share>)
    ensures |shares| == |caps|
    ensures |caps| > 128 ==> forall i :: 0 <= i < |caps| ==> shares[i] == Share(0, 0)
    ensures |caps| <= 128 ==> forall i :: 0 <= i < |caps| ==> shares[i].rate == Rate(total, caps, i)
    ensures 1 <= |caps| <= 128 ==> forall i :: 0 <= i < |caps| ==>
              && 2048 <= shares[i].burst <= 65_536 && |caps| * shares[i].burst <= 262_144
              && (shares[i].burst == 65_536 || |caps| * (shares[i].burst + 1) > 262_144)
  {
    if |caps| == 0 || |caps| > 128 {
      return seq(|caps|, _ => Share(0, 0));
    }
    ghost var trace;
    var rates;
    rates, trace := FillRates(total, caps);
    assert forall i :: 0 <= i < |caps| ==> rates[..][i] == rates[i];
    var burst := Min(Max(MAXIMUM_AGGREGATE_BURST_BYTES / |caps|, 2048), 65_536);
    BurstFits(|caps|, burst);
    shares := seq(|caps|, i requires 0 <= i < |caps| reads rates => Share(rates[i], burst));
  }
}
