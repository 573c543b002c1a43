/** The gold each group of packages/protocol/migrations/25_elect_validators.ts locks, and the part of it that the
    group votes with. */
module GroupAmounts {
  import opened KeyGroups
  import opened Options
  import opened RealArithmetic

  // BigNumber.integerValue in its default mode: to the nearest integer, halves away from zero.
  function IntegerValue(x: real): int {
    if x >= 0.0 then (x + 0.5).Floor else -(-x + 0.5).Floor
  }

  // How much more gold each group locks per validator than the one before it.
  function LockedGoldPerValEachGroup(required: real, ratio: real, groups: nat): int {
    var steps := if groups > 1 then groups - 1 else 1;
    IntegerValue((ratio - 1.0) * required / steps as real)
  }

  function LockedGold(keyGroups: seq<seq<string>>, required: real, ratio: real, i: nat): real
    requires i < |keyGroups|
  {
    (required + (LockedGoldPerValEachGroup(required, ratio, |keyGroups|) * i) as real) * |keyGroups[i]| as real
  }

  // The first and the last group vote with all their locked gold, any other with the requirement for one
  // validator. None is the thrown error: a ratio below one.
  function VoteAmounts(keyGroups: seq<seq<string>>, required: real, ratio: real): Option<seq<real>> {
    if ratio < 1.0 then None
    else Some(seq(|keyGroups|, i requires 0 <= i < |keyGroups| =>
      if i == 0 || i == |keyGroups| - 1 then LockedGold(keyGroups, required, ratio, i) else required))
  }

  lemma FloorOf(y: real, k: int)
    requires k as real <= y < (k + 1) as real
    ensures y.Floor == k
  {
  }

  // To the nearest integer, away from zero in the middle, and the same on either side of zero.
  lemma IntegerValueIsNearest(x: real)
    ensures -0.5 <= IntegerValue(x) as real - x <= 0.5
    ensures x >= 0.0 ==> IntegerValue(x) as real - x > -0.5
    ensures IntegerValue(-x) == -IntegerValue(x)
  {
    if x == 0.0 {
      FloorOf(0.5, 0);
    }
  }

  lemma IntegerValueOf(k: int)
    ensures IntegerValue(k as real) == k
  {
    if k >= 0 {
      FloorOf(k as real + 0.5, k);
    } else {
      FloorOf(-(k as real) + 0.5, -k);
    }
  }

  // The step before it is rounded.
  function IdealStep(required: real, ratio: real, n: nat): real
    requires n > 0
  {
    (ratio - 1.0) * required / n as real
  }

  lemma StepIs(required: real, ratio: real, n: nat)
    requires n > 0
    ensures LockedGoldPerValEachGroup(required, ratio, n + 1) == IntegerValue(IdealStep(required, ratio, n))
    ensures Product(n as real, IdealStep(required, ratio, n)) == Product(required, ratio) - required
  {
    hide IntegerValue;
    var total := (ratio - 1.0) * required;
    assert total / n as real * n as real == total;
    assert total == required * ratio - required;
  }

  lemma RealSteps(step: int, n: nat)
    ensures (step * n) as real == Product(n as real, step as real)
  {
    assert (step * n) as real == step as real * n as real;
  }

  lemma Half(n: real)
    ensures Product(n, 0.5) == n / 2.0
  {
  }

  // The rounding of the step adds up to at most half a unit per group.
  lemma StepsAddUp(required: real, ratio: real, n: nat)
    requires n > 0
    ensures var steps := (LockedGoldPerValEachGroup(required, ratio, n + 1) * n) as real;
      && Product(required, ratio) - n as real / 2.0 <= required + steps <= Product(required, ratio) + n as real / 2.0
      && (IdealStep(required, ratio, n) == IdealStep(required, ratio, n).Floor as real ==>
           required + steps == Product(required, ratio))
  {
    hide LockedGoldPerValEachGroup, IdealStep, IntegerValue, Product;
    var step, ideal := LockedGoldPerValEachGroup(required, ratio, n + 1), IdealStep(required, ratio, n);
    StepIs(required, ratio, n);
    IntegerValueIsNearest(ideal);
    IntegerValueOf(ideal.Floor);
    RealSteps(step, n);
    Half(n as real);
    ScaledGap(n as real, step as real, ideal);
  }

  // What a group locks: an amount per validator, times its validators.
  lemma LockedGoldIs(keyGroups: seq<seq<string>>, required: real, ratio: real, i: nat)
    requires i < |keyGroups|
    ensures LockedGold(keyGroups, required, ratio, i) == Product(|keyGroups[i]| as real,
      required + (LockedGoldPerValEachGroup(required, ratio, |keyGroups|) * i) as real)
  {
    hide LockedGoldPerValEachGroup;
  }

  // The first group locks and votes the requirement for each of its validators.
  lemma FirstAmount(keyGroups: seq<seq<string>>, required: real, ratio: real)
    requires keyGroups != [] && ratio >= 1.0
    ensures VoteAmounts(keyGroups, required, ratio).Some?
    ensures VoteAmounts(keyGroups, required, ratio).value[0] == required * |keyGroups[0]| as real
  {
    hide LockedGoldPerValEachGroup;
    assert LockedGoldPerValEachGroup(required, ratio, |keyGroups|) * 0 == 0;
  }

  // The last of several groups votes `ratio` times that for each of its validators, up to half a unit for each
  // validator and each group before it, and exactly that when the step needs no rounding.
  lemma LastAmount(keyGroups: seq<seq<string>>, required: real, ratio: real, n: nat)
    requires n > 0 && |keyGroups| == n + 1 && ratio >= 1.0
    ensures VoteAmounts(keyGroups, required, ratio).Some?
    ensures var last, whole, size := VoteAmounts(keyGroups, required, ratio).value[n], required * ratio, |keyGroups[n]|;
      && (whole - n as real / 2.0) * size as real <= last <= (whole + n as real / 2.0) * size as real
      && (IdealStep(required, ratio, n) == IdealStep(required, ratio, n).Floor as real ==> last == whole * size as real)
  {
    hide LockedGoldPerValEachGroup, IdealStep, LockedGold, Product;
    var whole, size := Product(required, ratio), |keyGroups[n]| as real;
    StepsAddUp(required, ratio, n);
    LockedGoldIs(keyGroups, required, ratio, n);
    var each := required + (LockedGoldPerValEachGroup(required, ratio, n + 1) * n) as real;
    Monotone(size, whole - n as real / 2.0, each);
    Monotone(size, each, whole + n as real / 2.0);
    ProductIs(required, ratio);
    ProductIs(whole - n as real / 2.0, size);
    ProductIs(whole + n as real / 2.0, size);
    ProductIs(whole, size);
  }

  lemma ProductIs(a: real, b: real)
    ensures Product(a, b) == Product(b, a) == a * b
  {
  }

  // Per validator, the gold locked grows by the same step from each group to the next.
  lemma LockedGoldGrows(keyGroups: seq<seq<string>>, maxGroupSize: nat, required: real, ratio: real, i: nat)
    requires Grouped(keyGroups, maxGroupSize) && i + 1 < |keyGroups|
    ensures |keyGroups[i]| > 0 && |keyGroups[i + 1]| > 0
    ensures LockedGold(keyGroups, required, ratio, i + 1) / |keyGroups[i + 1]| as real
         == LockedGold(keyGroups, required, ratio, i) / |keyGroups[i]| as real
            + LockedGoldPerValEachGroup(required, ratio, |keyGroups|) as real
  {
    hide LockedGoldPerValEachGroup, LockedGold, Product;
    var step := LockedGoldPerValEachGroup(required, ratio, |keyGroups|);
    LockedGoldIs(keyGroups, required, ratio, i);
    LockedGoldIs(keyGroups, required, ratio, i + 1);
    PerValidator(|keyGroups[i]| as real, required + (step * i) as real);
    PerValidator(|keyGroups[i + 1]| as real, required + (step * (i + 1)) as real);
    assert step * (i + 1) == step * i + step;
  }

  lemma PerValidator(size: real, gold: real)
    requires size > 0.0
    ensures Product(size, gold) / size == gold
  {
  }

  // All but the ends are level, and the ends are no lower.
  ghost predicate Level(amounts: seq<real>, required: real) {
    && (forall i :: 0 <= i < |amounts| ==> amounts[i] >= required)
    && (forall i :: 0 < i < |amounts| - 1 ==> amounts[i] == required)
  }

  lemma AtLeast(required: real, extra: real, size: nat)
    requires required > 0.0 && extra >= 0.0 && size >= 1
    ensures (required + extra) * size as real >= required
  {
    var more := size as real - 1.0;
    assert (required + extra) * size as real == required + extra + (required + extra) * more;
    assert (required + extra) * more >= 0.0;
  }

  lemma StepIsNatural(required: real, ratio: real, groups: nat)
    requires required > 0.0 && ratio >= 1.0
    ensures LockedGoldPerValEachGroup(required, ratio, groups) >= 0
  {
    assert (ratio - 1.0) * required >= 0.0;
  }

  lemma AmountsAreLevel(keyGroups: seq<seq<string>>, maxGroupSize: nat, required: real, ratio: real)
    requires Grouped(keyGroups, maxGroupSize) && required > 0.0 && VoteAmounts(keyGroups, required, ratio).Some?
    ensures Level(VoteAmounts(keyGroups, required, ratio).value, required)
  {
    hide LockedGoldPerValEachGroup;
    var step := LockedGoldPerValEachGroup(required, ratio, |keyGroups|);
    StepIsNatural(required, ratio, |keyGroups|);
    forall i: nat | i < |keyGroups|
      ensures LockedGold(keyGroups, required, ratio, i) >= required
    {
      assert step * i >= 0;
      AtLeast(required, (step * i) as real, |keyGroups[i]|);
    }
  }
}
