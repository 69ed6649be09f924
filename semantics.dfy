/**
 * What the generated bytes mean. One structural relation, `Derives`, reads a
 * pattern tree as a language of byte sequences; it is used with two rules for
 * repetition counts:
 *  - `Matches`: the count is any the quantifier allows (the pattern's language,
 *    which the tests of src/lib.rs check with the `regex` crate);
 *  - `Produces`: the count lies in the interval the generator draws from
 *    (the outputs the generator can write).
 * Zero-width assertions are read as the text the generator writes for them
 * (nothing, and a newline for `EndLine`); the context they assert is not
 * modelled. Literals are matched exactly: `casei` is not honoured.
 */
module Semantics {
  import opened Base
  import opened Utf8
  import opened Syntax
  import opened Quantifier
  import opened Sampling

  const NEWLINE: char := '\n'
  const NEWLINE_U8: byte := 0x0A

  /** How a repetition count is constrained. */
  datatype CountRule = RegexCounts | GeneratorCounts(maxRepeat: u32)

  predicate CountOk(rule: CountRule, r: Repeater, greedy: bool, n: nat) {
    match rule
    case RegexCounts => Allows(r, n)
    case GeneratorCounts(maxRepeat) => RepeatRange(r, greedy, maxRepeat).Contains(n)
  }

  /** `bs` is a derivation of `e` under `rule`. */
  ghost predicate Derives(e: Expr, bs: seq<byte>, rule: CountRule)
    decreases e, 0
  {
    match e
    case Empty | StartLine | StartText | EndText
      | WordBoundary | NotWordBoundary | WordBoundaryAscii | NotWordBoundaryAscii => bs == []
    case EndLine => bs == [NEWLINE_U8]
    case AnyChar => ScalarOf(bs).Some?
    case AnyCharNoNL => ScalarOf(bs).Some? && ScalarOf(bs).value != NEWLINE
    case Literal(chars, _) => DecodeString(bs) == Some(chars)
    case Class(ranges) => ScalarOf(bs).Some? && InClass(ranges, ScalarOf(bs).value)
    case Group(child, _, _) => Derives(child, bs, rule)
    case Concat(es) => DerivesAll(es, bs, rule)
    case Alternate(es) => exists i :: 0 <= i < |es| && Derives(es[i], bs, rule)
    case Repeat(child, r, greedy) =>
      exists n: nat :: CountOk(rule, r, greedy, n) && DerivesN(child, n, bs, rule)
    case AnyByte => |bs| == 1
    case AnyByteNoNL => |bs| == 1 && bs[0] != NEWLINE_U8
    case ClassBytes(ranges) => |bs| == 1 && InByteClass(ranges, bs[0])
    case LiteralBytes(bytes, _) => bs == bytes
  }

  /** `bs` is a derivation of each of `es` in turn, left to right. */
  ghost predicate DerivesAll(es: seq<Expr>, bs: seq<byte>, rule: CountRule)
    decreases es, 1
  {
    if es == [] then bs == []
    else exists k :: 0 <= k <= |bs| && DerivesAll(es[..|es| - 1], bs[..k], rule) && Derives(es[|es| - 1], bs[k..], rule)
  }

  /** `bs` is `n` successive derivations of `e`. */
  ghost predicate DerivesN(e: Expr, n: nat, bs: seq<byte>, rule: CountRule)
    decreases e, 1, n
  {
    if n == 0 then bs == []
    else exists k :: 0 <= k <= |bs| && DerivesN(e, n - 1, bs[..k], rule) && Derives(e, bs[k..], rule)
  }

  /** `bs` belongs to the language of the pattern. */
  ghost predicate Matches(e: Expr, bs: seq<byte>) {
    Derives(e, bs, RegexCounts)
  }

  /** `bs` is an output the generator can write for `e` with repetition bound `maxRepeat`. */
  ghost predicate Produces(e: Expr, maxRepeat: u32, bs: seq<byte>) {
    Derives(e, bs, GeneratorCounts(maxRepeat))
  }

  /**
   * The conditions under which the source walks the tree without panicking,
   * except for a byte range ending at 0xFF, which is admitted and drawn from
   * as evidently intended (the source's `u8` overflow there is modelled
   * separately by `ByteDrawIntervalAsWritten`):
   * classes and alternations are non-empty (`gen_range(0, len)` needs
   * `0 < len`), class ranges are ordered, and every repetition interval is
   * non-empty and its end fits in a `u32`.
   */
  predicate WellFormed(e: Expr, maxRepeat: u32) {
    match e
    case Class(ranges) =>
      |ranges| > 0 && forall i :: 0 <= i < |ranges| ==> ranges[i].start <= ranges[i].end
    case ClassBytes(ranges) =>
      |ranges| > 0 && forall i :: 0 <= i < |ranges| ==> ranges[i].start <= ranges[i].end
    case Group(child, _, _) => WellFormed(child, maxRepeat)
    case Concat(es) => forall i :: 0 <= i < |es| ==> WellFormed(es[i], maxRepeat)
    case Alternate(es) => |es| > 0 && forall i :: 0 <= i < |es| ==> WellFormed(es[i], maxRepeat)
    case Repeat(child, r, greedy) =>
      ValidRepeater(r) && Drawable(RepeatRange(r, greedy, maxRepeat)) && WellFormed(child, maxRepeat)
    case _ => true
  }

  /** The walk of `e` may reach one of the three resampling loops with a draw it rejects. */
  ghost predicate MayResample(e: Expr) {
    match e
    case AnyCharNoNL | AnyByteNoNL => true
    case Class(ranges) => exists i :: 0 <= i < |ranges| && OverlapsSurrogates(ranges[i])
    case Group(child, _, _) => MayResample(child)
    case Concat(es) => exists i :: 0 <= i < |es| && MayResample(es[i])
    case Alternate(es) => exists i :: 0 <= i < |es| && MayResample(es[i])
    case Repeat(child, _, _) => MayResample(child)
    case _ => false
  }

  /** The tree has no byte-level node, so it describes text. */
  predicate IsText(e: Expr) {
    match e
    case AnyByte | AnyByteNoNL | ClassBytes(_) | LiteralBytes(_, _) => false
    case Group(child, _, _) => IsText(child)
    case Concat(es) => forall i :: 0 <= i < |es| ==> IsText(es[i])
    case Alternate(es) => forall i :: 0 <= i < |es| ==> IsText(es[i])
    case Repeat(child, _, _) => IsText(child)
    case _ => true
  }

  /** Soundness: every output the generator can write belongs to the pattern's language. */
  lemma {:induction false} ProducesMatches(e: Expr, maxRepeat: u32, bs: seq<byte>)
    requires WellFormed(e, maxRepeat)
    requires Produces(e, maxRepeat, bs)
    ensures Matches(e, bs)
    decreases e, 0
  {
    var rule := GeneratorCounts(maxRepeat);
    match e
    case Group(child, _, _) =>
      ProducesMatches(child, maxRepeat, bs);
    case Concat(es) =>
      ProducesMatchesAll(es, maxRepeat, bs);
    case Alternate(es) =>
      var i :| 0 <= i < |es| && Derives(es[i], bs, rule);
      ProducesMatches(es[i], maxRepeat, bs);
    case Repeat(child, r, greedy) =>
      var n: nat :| CountOk(rule, r, greedy, n) && DerivesN(child, n, bs, rule);
      RepeatRangeSound(r, greedy, maxRepeat, n);
      ProducesMatchesN(child, maxRepeat, n, bs);
    case _ =>
  }

  lemma {:induction false} ProducesMatchesAll(es: seq<Expr>, maxRepeat: u32, bs: seq<byte>)
    requires forall i :: 0 <= i < |es| ==> WellFormed(es[i], maxRepeat)
    requires DerivesAll(es, bs, GeneratorCounts(maxRepeat))
    ensures DerivesAll(es, bs, RegexCounts)
    decreases es, 1
  {
    if es != [] {
      var k :| 0 <= k <= |bs| && DerivesAll(es[..|es| - 1], bs[..k], GeneratorCounts(maxRepeat))
        && Derives(es[|es| - 1], bs[k..], GeneratorCounts(maxRepeat));
      ProducesMatchesAll(es[..|es| - 1], maxRepeat, bs[..k]);
      ProducesMatches(es[|es| - 1], maxRepeat, bs[k..]);
    }
  }

  lemma {:induction false} ProducesMatchesN(e: Expr, maxRepeat: u32, n: nat, bs: seq<byte>)
    requires WellFormed(e, maxRepeat)
    requires DerivesN(e, n, bs, GeneratorCounts(maxRepeat))
    ensures DerivesN(e, n, bs, RegexCounts)
    decreases e, 1, n
  {
    if n > 0 {
      var k :| 0 <= k <= |bs| && DerivesN(e, n - 1, bs[..k], GeneratorCounts(maxRepeat))
        && Derives(e, bs[k..], GeneratorCounts(maxRepeat));
      ProducesMatchesN(e, maxRepeat, n - 1, bs[..k]);
      ProducesMatches(e, maxRepeat, bs[k..]);
    }
  }

  /** A lazy quantifier always yields exactly its minimum number of repetitions. */
  lemma LazyRepeatIsMinimal(child: Expr, r: Repeater, maxRepeat: u32, bs: seq<byte>)
    ensures Produces(Repeat(child, r, false), maxRepeat, bs)
        <==> DerivesN(child, MinCount(r), bs, GeneratorCounts(maxRepeat))
  {
    var rule := GeneratorCounts(maxRepeat);
    if Produces(Repeat(child, r, false), maxRepeat, bs) {
      var n: nat :| CountOk(rule, r, false, n) && DerivesN(child, n, bs, rule);
    }
    if DerivesN(child, MinCount(r), bs, rule) {
      assert CountOk(rule, r, false, MinCount(r));
    }
  }

  /** Splitting `bs` at `k` into two valid UTF-8 parts shows `bs` is valid UTF-8. */
  lemma JoinUtf8(bs: seq<byte>, k: nat)
    requires k <= |bs| && DecodeString(bs[..k]).Some? && DecodeString(bs[k..]).Some?
    ensures DecodeString(bs).Some?
  {
    DecodeStringAppend(bs[..k], bs[k..]);
    assert bs[..k] + bs[k..] == bs;
  }

  /** Every derivation of a text pattern is valid UTF-8, as the tests of src/lib.rs require of each output. */
  lemma {:induction false} TextIsUtf8(e: Expr, bs: seq<byte>, rule: CountRule)
    requires IsText(e) && Derives(e, bs, rule)
    ensures DecodeString(bs).Some?
    decreases e, 0
  {
    match e
    case AnyChar | AnyCharNoNL | Class(_) =>
      EncodeScalarOf(bs);
      DecodeEncodeString([ScalarOf(bs).value]);
      assert EncodeString([ScalarOf(bs).value]) == bs;
    case Group(child, _, _) =>
      TextIsUtf8(child, bs, rule);
    case Concat(es) =>
      TextIsUtf8All(es, bs, rule);
    case Alternate(es) =>
      var i :| 0 <= i < |es| && Derives(es[i], bs, rule);
      TextIsUtf8(es[i], bs, rule);
    case Repeat(child, r, greedy) =>
      var n: nat :| CountOk(rule, r, greedy, n) && DerivesN(child, n, bs, rule);
      TextIsUtf8N(child, n, bs, rule);
    case _ =>
  }

  lemma {:induction false} TextIsUtf8All(es: seq<Expr>, bs: seq<byte>, rule: CountRule)
    requires forall i :: 0 <= i < |es| ==> IsText(es[i])
    requires DerivesAll(es, bs, rule)
    ensures DecodeString(bs).Some?
    decreases es, 1
  {
    if es != [] {
      var k :| 0 <= k <= |bs| && DerivesAll(es[..|es| - 1], bs[..k], rule) && Derives(es[|es| - 1], bs[k..], rule);
      TextIsUtf8All(es[..|es| - 1], bs[..k], rule);
      TextIsUtf8(es[|es| - 1], bs[k..], rule);
      JoinUtf8(bs, k);
    }
  }

  lemma {:induction false} TextIsUtf8N(e: Expr, n: nat, bs: seq<byte>, rule: CountRule)
    requires IsText(e) && DerivesN(e, n, bs, rule)
    ensures DecodeString(bs).Some?
    decreases e, 1, n
  {
    if n > 0 {
      var k :| 0 <= k <= |bs| && DerivesN(e, n - 1, bs[..k], rule) && Derives(e, bs[k..], rule);
      TextIsUtf8N(e, n - 1, bs[..k], rule);
      TextIsUtf8(e, bs[k..], rule);
      JoinUtf8(bs, k);
    }
  }
}
