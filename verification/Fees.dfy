/**
 The gas limit and the two fee fields every write signs, against the base-fee rule of the
 Specification section of EIP-1559.
 */
module Fees {
  import opened Options

  const ELASTICITY: nat := 2
  const CHANGE_DENOMINATOR: nat := 8

  // ---------------------------------------------------------------- the base-fee rule

  function GasTarget(limit: nat): nat {
    limit / ELASTICITY
  }

  /** The base fee of the block after one that used that much gas. */
  function NextBaseFee(base: nat, used: nat, limit: nat): nat
    requires GasTarget(limit) >= 1 && used <= limit
  {
    var target := GasTarget(limit);
    if used == target then base
    else if used > target then base + Rise(base, used - target, target)
    else
      FallFits(base, target - used, target);
      base - Fall(base, target - used, target)
  }

  function Rise(base: nat, delta: nat, target: nat): (r: nat)
    requires target >= 1
    ensures r >= 1
  {
    var r := base * delta / target / CHANGE_DENOMINATOR;
    if r < 1 then 1 else r
  }

  function Fall(base: nat, delta: nat, target: nat): nat
    requires target >= 1
  {
    base * delta / target / CHANGE_DENOMINATOR
  }

  lemma DivideMonotone(a: nat, b: nat, d: nat)
    requires a <= b && d >= 1
    ensures a / d <= b / d
  {
    var p, q := a / d, b / d;
    assert (p - q) * d == p * d - q * d;
    NoSmallMultiple(p - q, d);
  }

  lemma NoSmallMultiple(k: int, d: int)
    requires d >= 0
    ensures k >= 1 ==> k * d >= d
    ensures k <= -1 ==> k * d + d <= 0
  {
    if k >= 1 {
      assert k * d == (k - 1) * d + d;
    } else if k <= -1 {
      assert k * d == (k + 1) * d - d;
    }
  }

  lemma QuotientIs(a: nat, d: nat, q: int)
    requires d >= 1 && q * d <= a < q * d + d
    ensures a / d == q
  {
    var p := a / d;
    assert (p - q) * d == p * d - q * d;
    NoSmallMultiple(p - q, d);
  }

  /** Whole divisors come out of a division. */
  lemma DividePlus(a: nat, k: nat, d: nat)
    requires d >= 1
    ensures (a + k * d) / d == a / d + k
  {
    var q := a / d;
    assert (q + k) * d == q * d + k * d;
    QuotientIs(a + k * d, d, q + k);
  }

  lemma ProductMonotone(a: nat, b: nat, c: nat, d: nat)
    requires a <= b && c <= d
    ensures a * c <= b * d
  {
  }

  lemma FallFits(base: nat, delta: nat, target: nat)
    requires 1 <= target && delta <= target
    ensures Fall(base, delta, target) <= base
  {
    ProductMonotone(base, base, delta, target);
    DivideMonotone(base * delta, base * target, target);
    DividePlus(0, base, target);
  }

  lemma RiseMonotone(a: nat, b: nat, c: nat, d: nat, target: nat)
    requires a <= b && c <= d && target >= 1
    ensures Rise(a, c, target) <= Rise(b, d, target)
  {
    ProductMonotone(a, b, c, d);
    DivideMonotone(a * c, b * d, target);
  }

  /** A lower base fee falls by at most as much less as it is lower. */
  lemma FallGap(a: nat, b: nat, delta: nat, target: nat)
    requires a <= b && 1 <= target && delta <= target
    ensures Fall(b, delta, target) <= Fall(a, delta, target) + (b - a)
  {
    var gap := b - a;
    ProductMonotone(gap, gap, delta, target);
    assert b * delta == a * delta + gap * delta;
    DivideMonotone(b * delta, a * delta + gap * target, target);
    DividePlus(a * delta, gap, target);
  }

  lemma NextBaseFeeMonotone(a: nat, b: nat, used: nat, limit: nat)
    requires a <= b && GasTarget(limit) >= 1 && used <= limit
    ensures NextBaseFee(a, used, limit) <= NextBaseFee(b, used, limit)
  {
    var target := GasTarget(limit);
    if used > target {
      RiseMonotone(a, b, used - target, used - target, target);
    } else if used < target {
      FallGap(a, b, target - used, target);
      FallFits(a, target - used, target);
      FallFits(b, target - used, target);
    }
  }

  lemma FullBlockIsWorst(base: nat, used: nat, limit: nat)
    requires GasTarget(limit) >= 1 && used <= limit
    ensures NextBaseFee(base, used, limit) <= NextBaseFee(base, limit, limit)
  {
    var target := GasTarget(limit);
    if used > target {
      RiseMonotone(base, base, used - target, limit - target, target);
    }
  }

  /** No usage of two blocks takes the base fee higher than two full blocks do. */
  lemma TwoFullBlocksAreWorst(base: nat, used1: nat, limit1: nat, used2: nat, limit2: nat)
    requires GasTarget(limit1) >= 1 && GasTarget(limit2) >= 1 && used1 <= limit1 && used2 <= limit2
    ensures NextBaseFee(base, used1, limit1) <= AfterOneFull(base, limit1)
    ensures NextBaseFee(NextBaseFee(base, used1, limit1), used2, limit2) <= AfterTwoFull(base, limit1, limit2)
  {
    FullBlockIsWorst(base, used1, limit1);
    var b, c := NextBaseFee(base, used1, limit1), AfterOneFull(base, limit1);
    FullBlockIsWorst(b, used2, limit2);
    NextBaseFeeMonotone(b, c, limit2, limit2);
  }

  function AfterOneFull(base: nat, limit: nat): nat
    requires GasTarget(limit) >= 1
  {
    NextBaseFee(base, limit, limit)
  }

  function AfterTwoFull(base: nat, limit1: nat, limit2: nat): nat
    requires GasTarget(limit1) >= 1 && GasTarget(limit2) >= 1
  {
    AfterOneFull(AfterOneFull(base, limit1), limit2)
  }

  // ---------------------------------------------------------------- the suggested fees

  /** 9/8 for each of two full blocks, rounded down once. */
  function BaseFeeCap(base: nat): nat {
    base * 81 / 64
  }

  datatype Suggestion = Suggestion(baseFeePerGas: nat, maxFeePerGas: nat, maxPriorityFeePerGas: nat)

  /**
   The fields a write signs: from the fee history's base fees and reward, and the node's own
   priority-fee estimate, which is None when that call throws.
   */
  method ResolveSuggestedFees(baseFees: seq<nat>, reward: Option<nat>, estimate: Option<nat>)
    returns (r: Option<Suggestion>)
    ensures r.None? <==> baseFees == []
    ensures r.Some? ==>
              var s := r.value;
              && s.baseFeePerGas == baseFees[|baseFees| - 1]
              && s.maxPriorityFeePerGas ==
                 (if reward.Some? && reward.value != 0 then reward.value
                  else if estimate.Some? && estimate.value != 0 then estimate.value
                  else 1)
              && s == Suggested(s.baseFeePerGas, s.maxPriorityFeePerGas)
              && 1 <= s.maxPriorityFeePerGas <= s.maxFeePerGas
              && exists cap: nat :: Floors(cap, 81 * s.baseFeePerGas, 64)
                                    && s.maxFeePerGas == if cap < s.maxPriorityFeePerGas
                                                         then cap + s.maxPriorityFeePerGas else cap
  {
    if baseFees == [] {
      return None;
    }
    var baseFeePerGas := baseFees[|baseFees| - 1];
    var maxPriorityFeePerGas := if reward.Some? then reward.value else 0;
    if maxPriorityFeePerGas == 0 {
      maxPriorityFeePerGas := if estimate.Some? then estimate.value else 1;
      if maxPriorityFeePerGas == 0 {
        maxPriorityFeePerGas := 1;
      }
    }
    var maxFeePerGas := baseFeePerGas * (9 * 9) / (8 * 8);
    assert Floors(maxFeePerGas, 81 * baseFeePerGas, 64);
    if maxFeePerGas < maxPriorityFeePerGas {
      maxFeePerGas := maxFeePerGas + maxPriorityFeePerGas;
    }
    return Some(Suggestion(baseFeePerGas, maxFeePerGas, maxPriorityFeePerGas));
  }

  /** The quotient rounded down. */
  ghost predicate Floors(q: nat, n: nat, d: nat) {
    q * d <= n < q * d + d
  }

  function Suggested(base: nat, priority: nat): Suggestion {
    var cap := BaseFeeCap(base);
    Suggestion(base, if cap < priority then cap + priority else cap, priority)
  }

  // ---------------------------------------------------------------- whether the cap covers two blocks

  /** With those two blocks used so far, the base fee is within the cap after each. */
  predicate Within(cap: nat, base: nat, used1: nat, limit1: nat, used2: nat, limit2: nat)
    requires GasTarget(limit1) >= 1 && GasTarget(limit2) >= 1 && used1 <= limit1 && used2 <= limit2
  {
    && NextBaseFee(base, used1, limit1) <= cap
    && NextBaseFee(NextBaseFee(base, used1, limit1), used2, limit2) <= cap
  }

  /** Whatever the next two blocks use, the base fee stays within the cap. */
  ghost predicate Covers(cap: nat, base: nat, limit1: nat, limit2: nat)
    requires GasTarget(limit1) >= 1 && GasTarget(limit2) >= 1
  {
    forall used1, used2 :: 0 <= used1 <= limit1 && 0 <= used2 <= limit2 ==>
      Within(cap, base, used1, limit1, used2, limit2)
  }

  /** Full blocks decide it. */
  lemma CoversExactly(cap: nat, base: nat, limit1: nat, limit2: nat)
    requires GasTarget(limit1) >= 1 && GasTarget(limit2) >= 1
    ensures Covers(cap, base, limit1, limit2) <==> AfterTwoFull(base, limit1, limit2) <= cap
  {
    hide NextBaseFee;
    if Covers(cap, base, limit1, limit2) {
      assert Within(cap, base, limit1, limit1, limit2, limit2);
    }
    if AfterTwoFull(base, limit1, limit2) <= cap {
      hide AfterTwoFull, Within;
      forall used1, used2 | 0 <= used1 <= limit1 && 0 <= used2 <= limit2
        ensures Within(cap, base, used1, limit1, used2, limit2)
      {
        WithinTwoFull(cap, base, used1, limit1, used2, limit2);
      }
    }
  }

  lemma WithinTwoFull(cap: nat, base: nat, used1: nat, limit1: nat, used2: nat, limit2: nat)
    requires GasTarget(limit1) >= 1 && GasTarget(limit2) >= 1 && used1 <= limit1 && used2 <= limit2
    requires AfterTwoFull(base, limit1, limit2) <= cap
    ensures Within(cap, base, used1, limit1, used2, limit2)
  {
    hide NextBaseFee;
    TwoFullBlocksAreWorst(base, used1, limit1, used2, limit2);
    FullBlockRaises(AfterOneFull(base, limit1), limit2);
  }

  lemma FullBlockRaises(base: nat, limit: nat)
    requires GasTarget(limit) >= 1
    ensures AfterOneFull(base, limit) > base
  {
  }

  lemma EvenLimit(base: nat, limit: nat)
    requires GasTarget(limit) >= 1 && limit % 2 == 0
    ensures AfterOneFull(base, limit) == base + if base < 8 then 1 else base / 8
  {
    var target := GasTarget(limit);
    assert limit - target == target;
    DividePlus(0, base, target);
  }

  /**
   With even gas limits the suggested cap covers the next two blocks exactly when the base fee is at
   least 8 wei, or the priority fee on top leaves 2 wei to spare.
   */
  lemma EvenLimitsCoveredExactly(base: nat, priority: nat, limit1: nat, limit2: nat)
    requires GasTarget(limit1) >= 1 && GasTarget(limit2) >= 1 && limit1 % 2 == 0 && limit2 % 2 == 0
    ensures Covers(Suggested(base, priority).maxFeePerGas, base, limit1, limit2)
       <==> base >= 8 || Suggested(base, priority).maxFeePerGas >= base + 2
  {
    CoversExactly(Suggested(base, priority).maxFeePerGas, base, limit1, limit2);
    EvenLimit(base, limit1);
    EvenLimit(AfterOneFull(base, limit1), limit2);
    hide NextBaseFee, Covers;
    if base >= 8 {
      var b := base + base / 8;
      assert 64 * (b + b / 8) <= 81 * base;
    }
  }

  lemma OddLimit(base: nat, limit: nat)
    requires GasTarget(limit) >= 1 && limit % 2 == 1
    ensures AfterOneFull(base, limit) ==
            var r := (base + base / GasTarget(limit)) / 8; base + if r < 1 then 1 else r
  {
    var target := GasTarget(limit);
    assert limit - target == target + 1;
    assert base * (target + 1) == base + base * target;
    DividePlus(base, base, target);
  }

  /**
   The cap covers two blocks at every base fee from 8 wei up exactly when both gas limits are even:
   at an odd limit a full block is more than twice its target, and raises the fee by more than 1/8.
   */
  lemma CoveredAtEveryBaseFeeExactly(limit1: nat, limit2: nat)
    requires GasTarget(limit1) >= 1 && GasTarget(limit2) >= 1
    ensures (forall base: nat :: base >= 8 ==> Covers(BaseFeeCap(base), base, limit1, limit2))
       <==> limit1 % 2 == 0 && limit2 % 2 == 0
  {
    if limit1 % 2 == 0 && limit2 % 2 == 0 {
      forall base: nat | base >= 8 ensures Covers(BaseFeeCap(base), base, limit1, limit2) {
        EvenLimitsCoveredExactly(base, 0, limit1, limit2);
      }
    } else {
      OddLimitEscapes(limit1, limit2);
    }
  }

  /** The base fee that escapes: 64 times the target of an odd limit. */
  lemma OddLimitEscapes(limit1: nat, limit2: nat)
    requires GasTarget(limit1) >= 1 && GasTarget(limit2) >= 1 && (limit1 % 2 == 1 || limit2 % 2 == 1)
    ensures var base := 64 * GasTarget(if limit1 % 2 == 1 then limit1 else limit2);
            base >= 8 && !Covers(BaseFeeCap(base), base, limit1, limit2)
  {
    var target := GasTarget(if limit1 % 2 == 1 then limit1 else limit2);
    var base := 64 * target;
    CoversExactly(BaseFeeCap(base), base, limit1, limit2);
    assert BaseFeeCap(base) == 81 * target;
    if limit1 % 2 == 1 {
      Multiple(64, target);
      OddLimit(base, limit1);
      AtLeastAnEighth(72 * target + 8, limit2);
    } else {
      EvenLimit(base, limit1);
      Multiple(72, target);
      OddLimit(72 * target, limit2);
    }
  }

  lemma Multiple(k: nat, target: nat)
    requires target >= 1
    ensures k * target / target == k
  {
    DividePlus(0, k, target);
  }

  lemma AtLeastAnEighth(base: nat, limit: nat)
    requires GasTarget(limit) >= 1
    ensures AfterOneFull(base, limit) >= base + base / 8
  {
    if limit % 2 == 0 {
      EvenLimit(base, limit);
    } else {
      OddLimit(base, limit);
    }
  }

  // ---------------------------------------------------------------- the gas limit

  const GAS_MARGIN_PERCENT: nat := 120
  const BLOCK_GAS_LIMIT_CEILING_PERCENT: nat := 95

  ghost predicate WithinMargin(gas: nat, estimate: nat, blockGasLimit: nat) {
    100 * gas <= 120 * estimate && 100 * gas <= 95 * blockGasLimit
  }

  /** The largest limit within both percentages, or None if that is below the estimate. */
  function ApplyGasMargin(estimate: nat, blockGasLimit: nat): (gas: Option<nat>)
    ensures gas.Some? <==> 100 * estimate <= 95 * blockGasLimit
    ensures gas.Some? ==> estimate <= gas.value && WithinMargin(gas.value, estimate, blockGasLimit)
    ensures gas.Some? ==> forall g: nat :: WithinMargin(g, estimate, blockGasLimit) ==> g <= gas.value
  {
    var ceiling := blockGasLimit * BLOCK_GAS_LIMIT_CEILING_PERCENT / 100;
    if estimate > ceiling then None
    else
      var withMargin := estimate * GAS_MARGIN_PERCENT / 100;
      Some(if withMargin > ceiling then ceiling else withMargin)
  }
}
