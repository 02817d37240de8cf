/** The colour of a contribution cell: five fixed colours of the dark GitHub
    theme, chosen by thresholds on the day's count.
 */
module Palette {

  /** The five tier colours, from "no contribution" to "most contributions". */
  const TierColors: seq<string> := ["#161b22", "#0e4429", "#006d32", "#26a641", "#39d353"]

  /** The lowest count of tiers 1 to 4; tier 0 is everything below the first. */
  const Thresholds: seq<int> := [1, 3, 6, 9]

  /** The colour the generator gives a cell, as the chain of comparisons in
      the generator decides it. A negative count is not rejected: it falls
      through `count == 0` and is caught by `count < 3`. */
  function ContributionColor(count: int): (c: string)
    ensures c in TierColors
  {
    if count == 0 then "#161b22"
    else if count < 3 then "#0e4429"
    else if count < 6 then "#006d32"
    else if count < 9 then "#26a641"
    else "#39d353"
  }

  /** How many of the given thresholds a count has reached. */
  function Reached(thresholds: seq<int>, count: int): (n: nat)
    ensures n <= |thresholds|
  {
    if thresholds == [] then 0
    else (if thresholds[0] <= count then 1 else 0) + Reached(thresholds[1..], count)
  }

  /** The reference definition of the tier: the number of thresholds reached. */
  function Tier(count: int): (t: nat)
    ensures t < |TierColors|
  {
    Reached(Thresholds, count)
  }

  /** Reaching more thresholds needs no smaller a count. */
  lemma {:induction false} ReachedMonotone(thresholds: seq<int>, a: int, b: int)
    requires a <= b
    ensures Reached(thresholds, a) <= Reached(thresholds, b)
  {
    if thresholds != [] {
      ReachedMonotone(thresholds[1..], a, b);
    }
  }

  /** The tier never decreases as the count grows. */
  lemma TierMonotone(a: int, b: int)
    requires a <= b
    ensures Tier(a) <= Tier(b)
  {
    ReachedMonotone(Thresholds, a, b);
  }

  /** The threshold table, both ways: each tier holds exactly its range of
      non-negative counts. */
  lemma TierRanges(count: int)
    requires count >= 0
    ensures Tier(count) == 0 <==> count == 0
    ensures Tier(count) == 1 <==> 1 <= count <= 2
    ensures Tier(count) == 2 <==> 3 <= count <= 5
    ensures Tier(count) == 3 <==> 6 <= count <= 8
    ensures Tier(count) == 4 <==> 9 <= count
  {
    var b := (x: int) => if x <= count then 1 else 0;
    assert [9][1..] == [];
    assert Reached([9], count) == b(9);
    assert [6, 9][1..] == [9];
    assert Reached([6, 9], count) == b(6) + b(9);
    assert [3, 6, 9][1..] == [6, 9];
    assert Reached([3, 6, 9], count) == b(3) + b(6) + b(9);
    assert Thresholds[1..] == [3, 6, 9];
    assert Tier(count) == b(1) + b(3) + b(6) + b(9);
  }

  /** For every count the generator can be given, its colour is the colour of
      the count's tier. */
  lemma ColorIsTierColor(count: int)
    requires count >= 0
    ensures ContributionColor(count) == TierColors[Tier(count)]
  {
    TierRanges(count);
  }

  /** A negative count, which the generator does not reject, gets the colour
      of tier 1, although no threshold is reached. */
  lemma NegativeCountColor(count: int)
    requires count < 0
    ensures ContributionColor(count) == TierColors[1]
    ensures Tier(count) == 0
  {
    TierRanges(0);
    TierMonotone(count, 0);
  }

  /** The five colours are distinct, so two non-negative counts share a colour
      exactly when they share a tier. */
  lemma SameColorIffSameTier(a: int, b: int)
    requires a >= 0 && b >= 0
    ensures ContributionColor(a) == ContributionColor(b) <==> Tier(a) == Tier(b)
  {
    ColorIsTierColor(a);
    ColorIsTierColor(b);
  }

  /** The boundary counts land in the tiers the table promises. */
  lemma TierBoundaries()
    ensures Tier(0) == 0 && Tier(1) == 1 && Tier(2) == 1 && Tier(3) == 2
    ensures Tier(5) == 2 && Tier(6) == 3 && Tier(8) == 3 && Tier(9) == 4
    ensures ContributionColor(2) == "#0e4429" && ContributionColor(3) == "#006d32"
    ensures ContributionColor(8) == "#26a641" && ContributionColor(9) == "#39d353"
  {
    TierRanges(0); TierRanges(1); TierRanges(2); TierRanges(3);
    TierRanges(5); TierRanges(6); TierRanges(8); TierRanges(9);
  }
}
