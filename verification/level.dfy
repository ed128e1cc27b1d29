/**
 The level generator (`randomLevel`, skiplist.go:128-143). Each call of
 `rand.Float64()` is the next element of a stream of draws, so that the
 generator is a function of its draws: `draws(j)` is the value drawn on the
 j-th pass of the loop.
 */
module LevelGenerator {

  /** The promotion probability the generator compares against: a zero `p`
      is replaced by one half (skiplist.go:133-135). */
  function PromotionProbability(p: real): (q: real)
    ensures q != 0.0
    ensures p == 0.0 ==> q == 0.5
    ensures p != 0.0 ==> q == p
  {
    if p == 0.0 then 0.5 else p
  }

  /** The height of a new node: the number of draws, taken in order, that do
      not exceed the promotion probability before the first one that does,
      capped at `maxLevel` (a negative cap yields 0, as the loop never runs). */
  function RandomLevel(maxLevel: int, p: real, draws: nat -> real): (level: nat)
    ensures maxLevel >= 0 ==> level <= maxLevel
    ensures maxLevel <= 0 ==> level == 0
    ensures forall j: nat :: j < level ==> draws(j) <= PromotionProbability(p)
    ensures level < maxLevel ==> draws(level) > PromotionProbability(p)
  {
    Promote(0, maxLevel, PromotionProbability(p), draws)
  }

  /** The loop of skiplist.go:136-141, from the pass that would raise the
      height from `level`; every earlier draw promoted. */
  function Promote(level: nat, maxLevel: int, q: real, draws: nat -> real): (r: nat)
    requires forall j: nat :: j < level ==> draws(j) <= q
    ensures level <= r
    ensures level <= maxLevel ==> r <= maxLevel
    ensures level >= maxLevel ==> r == level
    ensures forall j: nat :: j < r ==> draws(j) <= q
    ensures r < maxLevel ==> draws(r) > q
    decreases maxLevel - level
  {
    if level < maxLevel then
      if draws(level) > q then level else Promote(level + 1, maxLevel, q, draws)
    else
      level
  }
}
