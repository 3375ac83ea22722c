/** What the exact rates of the allocator mean: nothing is lost, nobody is over cap, the division is max-min fair. */
module FairShares {
  import opened Numerals
  import opened WaterFilling

  lemma RateFits(total: nat, caps: seq<u64>, i: nat)
    requires i < |caps|
    ensures Rate(total, caps, i) <= caps[i]
    ensures Min(caps[i], Level(total, caps)) <= Rate(total, caps, i) <= Level(total, caps) + 1
    ensures Rate(total, caps, i) < caps[i] ==> Rate(total, caps, i) >= Level(total, caps)
  {}

  function Rates(total: nat, caps: seq<u64>): (rs: seq<u64>)
    ensures |rs| == |caps|
    ensures forall i :: 0 <= i < |caps| ==> rs[i] == Rate(total, caps, i)
  {
    seq(|caps|, i requires 0 <= i < |caps| => RateFits(total, caps, i); Rate(total, caps, i))
  }

  lemma {:induction false} PartialSum(total: nat, caps: seq<u64>, j: nat)
    requires j <= |caps|
    ensures var level := Level(total, caps);
            var left := total - FillTo(caps, level);
            Sum(Rates(total, caps)[..j]) == FillTo(caps[..j], level) + Min(left, Unsaturated(caps[..j], level))
  {
    LevelIsAffordable(total, caps);
    if j == 0 {
    } else {
      PartialSum(total, caps, j - 1);
      assert Rates(total, caps)[..j][..j - 1] == Rates(total, caps)[..j - 1];
      assert caps[..j][..j - 1] == caps[..j - 1];
    }
  }

  /** Conservation: the rates use up the total, or every path is at its cap. */
  lemma RatesUseTheBudget(total: nat, caps: seq<u64>)
    ensures Sum(Rates(total, caps)) == Min(total, Sum(caps))
  {
    var level := Level(total, caps);
    PartialSum(total, caps, |caps|);
    assert Rates(total, caps)[..|caps|] == Rates(total, caps) && caps[..|caps|] == caps;
    FillSaturated(caps, Highest(caps));
    LevelIsAffordable(total, caps);
    if level < Highest(caps) {
      FillOneMore(caps, level);
      FillIsMonotone(caps, level + 1, Highest(caps));
    }
  }

  /** Two rates differ by more than a byte only where the lower one is at its cap. */
  lemma RatesAreLevel(total: nat, caps: seq<u64>, i: nat, j: nat)
    requires i < |caps| && j < |caps| && Rate(total, caps, i) < caps[i]
    ensures Rate(total, caps, j) <= Rate(total, caps, i) + 1
  {
    RateFits(total, caps, i);
    RateFits(total, caps, j);
  }

  lemma {:induction false} SmallerPart(xs: seq<u64>, ys: seq<u64>) returns (j: nat)
    requires |xs| == |ys| && Sum(xs) < Sum(ys)
    ensures j < |xs| && xs[j] < ys[j]
    decreases |xs|
  {
    var last := |xs| - 1;
    if xs[last] < ys[last] {
      j := last;
    } else {
      j := SmallerPart(xs[..last], ys[..last]);
    }
  }

  lemma {:induction false} SmallerSumHasSmallerPart(xs: seq<u64>, ys: seq<u64>, i: nat) returns (j: nat)
    requires |xs| == |ys| && Sum(xs) <= Sum(ys) && i < |xs| && xs[i] > ys[i]
    ensures j < |xs| && xs[j] < ys[j]
    decreases |xs|
  {
    var last := |xs| - 1;
    if xs[last] < ys[last] {
      j := last;
    } else if i < last {
      j := SmallerSumHasSmallerPart(xs[..last], ys[..last], i);
    } else {
      j := SmallerPart(xs[..last], ys[..last]);
    }
  }

  lemma {:induction false} SumIsMonotone(xs: seq<u64>, ys: seq<u64>)
    requires |xs| == |ys| && forall k :: 0 <= k < |xs| ==> xs[k] <= ys[k]
    ensures Sum(xs) <= Sum(ys)
  {
    if xs == [] {
    } else {
      SumIsMonotone(xs[..|xs| - 1], ys[..|ys| - 1]);
    }
  }

  /** Max-min fairness to one byte: any other division within the caps and the total that gives one path more gives
      less to some path that had at most a byte more than it. */
  lemma RatesAreMaxMinFair(total: nat, caps: seq<u64>, other: seq<u64>, i: nat) returns (j: nat)
    requires |other| == |caps| && Sum(other) <= total && forall k :: 0 <= k < |caps| ==> other[k] <= caps[k]
    requires i < |caps| && other[i] > Rate(total, caps, i)
    ensures j < |caps| && other[j] < Rate(total, caps, j) <= Rate(total, caps, i) + 1
  {
    RatesUseTheBudget(total, caps);
    SumIsMonotone(other, caps);
    j := SmallerSumHasSmallerPart(other, Rates(total, caps), i);
    RatesAreLevel(total, caps, i, j);
  }

  /** A larger budget lowers no rate. */
  lemma RatesGrowWithBudget(total: nat, more: nat, caps: seq<u64>, i: nat)
    requires total <= more && i < |caps|
    ensures Rate(total, caps, i) <= Rate(more, caps, i)
  {
    var low, high := Level(total, caps), Level(more, caps);
    LevelIsAffordable(total, caps);
    LevelIsAffordable(more, caps);
    if high < low {
      FillIsMonotone(caps, high + 1, low);
    }
    RateFits(total, caps, i);
    RateFits(more, caps, i);
  }
}
