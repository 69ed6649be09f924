/**
 * Quantifier resolution: the repetition counts a quantifier admits in
 * regular-expression semantics, and the half-open interval from which the
 * generator draws a count (src/lib.rs, the `match rep` of `Expr::Repeat`).
 */
module Quantifier {
  import opened Base
  import opened Syntax

  /** The counts `n` for which `n` copies of the operand match the quantifier. */
  predicate Allows(r: Repeater, n: nat) {
    match r
    case ZeroOrOne => n <= 1
    case ZeroOrMore => true
    case OneOrMore => 1 <= n
    case Range(min, None) => min <= n
    case Range(min, Some(max)) => min <= n <= max
  }

  /** The least count a quantifier admits. */
  function MinCount(r: Repeater): nat {
    match r
    case ZeroOrOne | ZeroOrMore => 0
    case OneOrMore => 1
    case Range(min, _) => min
  }

  /** The parser's invariant on a quantifier: an explicit upper bound is not below the minimum. */
  predicate ValidRepeater(r: Repeater) {
    r.Range? && r.max.Some? ==> r.min <= r.max.value
  }

  /** Whether the quantifier has an upper bound of its own. */
  predicate IsBounded(r: Repeater) {
    r.ZeroOrOne? || (r.Range? && r.max.Some?)
  }

  /**
   * The interval `start..end` the generator passes to `gen_range` for the
   * repetition count. A lazy quantifier admits only its minimum. A greedy
   * bounded quantifier admits exactly the counts it allows. A greedy unbounded
   * quantifier admits the counts it allows below `maxRepeat`, which is an
   * exclusive ceiling.
   */
  function RepeatRange(r: Repeater, greedy: bool, maxRepeat: u32): (range: Interval)
    ensures range.lo == MinCount(r)
    ensures !greedy ==> forall n: nat :: range.Contains(n) <==> n == MinCount(r)
    ensures greedy && IsBounded(r) ==> forall n: nat :: range.Contains(n) <==> Allows(r, n)
    ensures greedy && !IsBounded(r) ==> forall n: nat :: range.Contains(n) <==> Allows(r, n) && n < maxRepeat
  {
    match r
    case ZeroOrOne => if greedy then Interval(0, 2) else Interval(0, 1)
    case ZeroOrMore => if greedy then Interval(0, maxRepeat) else Interval(0, 1)
    case OneOrMore => if greedy then Interval(1, maxRepeat) else Interval(1, 2)
    case Range(min, None) => if greedy then Interval(min, maxRepeat) else Interval(min, min + 1)
    case Range(min, Some(max)) => if greedy then Interval(min, max + 1) else Interval(min, min + 1)
  }

  /**
   * Whether the source can draw from the interval without panicking: the
   * `+ 1` of the `u32` end must not overflow, and `gen_range(start, end)`
   * needs `start < end`.
   */
  predicate Drawable(range: Interval) {
    range.lo < range.hi < U32_LIMIT
  }

  /** Every count the generator can draw is one the quantifier allows. */
  lemma RepeatRangeSound(r: Repeater, greedy: bool, maxRepeat: u32, n: nat)
    requires ValidRepeater(r)
    requires RepeatRange(r, greedy, maxRepeat).Contains(n)
    ensures Allows(r, n)
  {
  }
}
