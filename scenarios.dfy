/**
 * Patterns of the tests in src/lib.rs, and one extra nested case, as the
 * trees their parser builds, with what the generator can write for each.
 */
module Scenarios {
  import opened Base
  import opened Utf8
  import opened Syntax
  import opened Semantics

  /** A literal of one ASCII character, such as the `a` of `a*`. */
  function Char(ch: char): Expr {
    Literal([ch], false)
  }

  /** `n` copies of the byte `b`. */
  function Copies(b: byte, n: nat): (bs: seq<byte>)
    ensures |bs| == n && forall k :: 0 <= k < n ==> bs[k] == b
  {
    if n == 0 then [] else Copies(b, n - 1) + [b]
  }

  /** The only derivation of a one-character ASCII literal is that character's byte. */
  lemma AsciiCharOutput(ch: char, bs: seq<byte>, rule: CountRule)
    requires ch as int < 0x80
    requires Derives(Char(ch), bs, rule)
    ensures bs == [ch as int]
  {
    EncodeDecodeString(bs);
    assert EncodeString([ch]) == EncodeScalar(ch) + EncodeString([]);
  }

  /** `n` repetitions of a one-character ASCII literal are `n` copies of its byte. */
  lemma {:induction false} RepeatedAsciiChar(ch: char, n: nat, bs: seq<byte>, rule: CountRule)
    requires ch as int < 0x80
    requires DerivesN(Char(ch), n, bs, rule)
    ensures bs == Copies(ch as int, n)
  {
    if n > 0 {
      var k :| 0 <= k <= |bs| && DerivesN(Char(ch), n - 1, bs[..k], rule) && Derives(Char(ch), bs[k..], rule);
      RepeatedAsciiChar(ch, n - 1, bs[..k], rule);
      AsciiCharOutput(ch, bs[k..], rule);
      assert bs == bs[..k] + bs[k..];
    }
  }

  /** Test `gen_literal`: `aBcDe` always yields exactly those five bytes. */
  lemma LiteralScenario(maxRepeat: u32, bs: seq<byte>)
    requires Produces(Literal("aBcDe", false), maxRepeat, bs)
    ensures bs == [0x61, 0x42, 0x63, 0x44, 0x65]
  {
    EncodeDecodeString(bs);
    assert EncodeString("e") == [0x65] by {
      assert EncodeString("e") == EncodeScalar('e') + EncodeString([]);
    }
    assert EncodeString("De") == [0x44, 0x65] by {
      assert "De"[1..] == "e";
    }
    assert EncodeString("cDe") == [0x63, 0x44, 0x65] by {
      assert "cDe"[1..] == "De";
    }
    assert EncodeString("BcDe") == [0x42, 0x63, 0x44, 0x65] by {
      assert "BcDe"[1..] == "cDe";
    }
    assert "aBcDe"[1..] == "BcDe";
  }

  /** Test `gen_repeat_zero_or_more_lazy`: `a*?` always yields nothing. */
  lemma LazyStarScenario(maxRepeat: u32, bs: seq<byte>)
    requires Produces(Repeat(Char('a'), ZeroOrMore, false), maxRepeat, bs)
    ensures bs == []
  {
    LazyRepeatIsMinimal(Char('a'), ZeroOrMore, maxRepeat, bs);
  }

  /** Test `gen_repeat_one_or_more_lazy`: `a+?` always yields exactly one `a`. */
  lemma LazyPlusScenario(maxRepeat: u32, bs: seq<byte>)
    requires Produces(Repeat(Char('a'), OneOrMore, false), maxRepeat, bs)
    ensures bs == [0x61]
  {
    LazyRepeatIsMinimal(Char('a'), OneOrMore, maxRepeat, bs);
    RepeatedAsciiChar('a', 1, bs, GeneratorCounts(maxRepeat));
  }

  /** Test `gen_repeat_range`: `a{3,8}` always yields three to eight `a`s. */
  lemma BoundedRangeScenario(maxRepeat: u32, bs: seq<byte>)
    requires Produces(Repeat(Char('a'), Range(3, Some(8)), true), maxRepeat, bs)
    ensures 3 <= |bs| <= 8 && bs == Copies(0x61, |bs|)
  {
    var rule := GeneratorCounts(maxRepeat);
    var n: nat :| CountOk(rule, Range(3, Some(8)), true, n) && DerivesN(Char('a'), n, bs, rule);
    RepeatedAsciiChar('a', n, bs, rule);
  }

  /** Test `gen_repeat_zero_or_more`: `a*` yields fewer `a`s than the repetition bound. */
  lemma GreedyStarScenario(maxRepeat: u32, bs: seq<byte>)
    requires Produces(Repeat(Char('a'), ZeroOrMore, true), maxRepeat, bs)
    ensures |bs| < maxRepeat && bs == Copies(0x61, |bs|)
  {
    var rule := GeneratorCounts(maxRepeat);
    var n: nat :| CountOk(rule, ZeroOrMore, true, n) && DerivesN(Char('a'), n, bs, rule);
    RepeatedAsciiChar('a', n, bs, rule);
  }

  /** `(a|b)|(c|d)`, as the parser builds it: two capture groups of alternations. */
  function NestedAlternation(): Expr {
    Alternate([
      Group(Alternate([Char('a'), Char('b')]), Some(1), None),
      Group(Alternate([Char('c'), Char('d')]), Some(2), None)])
  }

  /** A two-way alternation of ASCII characters yields one of the two. */
  lemma AsciiPairOutput(x: char, y: char, bs: seq<byte>, rule: CountRule)
    requires x as int < 0x80 && y as int < 0x80
    requires Derives(Alternate([Char(x), Char(y)]), bs, rule)
    ensures bs == [x as int] || bs == [y as int]
  {
    var alts := [Char(x), Char(y)];
    var i :| 0 <= i < 2 && Derives(alts[i], bs, rule);
    if i == 0 {
      AsciiCharOutput(x, bs, rule);
    } else {
      AsciiCharOutput(y, bs, rule);
    }
  }

  /** Test `gen_alternate`: `a|b` always yields `a` or `b`. */
  lemma AlternateScenario(maxRepeat: u32, bs: seq<byte>)
    requires Produces(Alternate([Char('a'), Char('b')]), maxRepeat, bs)
    ensures bs == [0x61] || bs == [0x62]
  {
    AsciiPairOutput('a', 'b', bs, GeneratorCounts(maxRepeat));
  }

  /** An extra case beyond the tests: `(a|b)|(c|d)` always yields one of `a`, `b`, `c`, `d`. */
  lemma NestedAlternationScenario(maxRepeat: u32, bs: seq<byte>)
    requires Produces(NestedAlternation(), maxRepeat, bs)
    ensures bs == [0x61] || bs == [0x62] || bs == [0x63] || bs == [0x64]
  {
    var rule := GeneratorCounts(maxRepeat);
    var outer := NestedAlternation().exps;
    var i :| 0 <= i < 2 && Derives(outer[i], bs, rule);
    if i == 0 {
      AsciiPairOutput('a', 'b', bs, rule);
    } else {
      AsciiPairOutput('c', 'd', bs, rule);
    }
  }

  /** Splits a derivation of a concatenation before its last child. */
  lemma SplitLast(init: seq<Expr>, last: Expr, bs: seq<byte>, rule: CountRule) returns (front: seq<byte>, back: seq<byte>)
    requires DerivesAll(init + [last], bs, rule)
    ensures bs == front + back && DerivesAll(init, front, rule) && Derives(last, back, rule)
  {
    var es := init + [last];
    assert es[..|es| - 1] == init && es[|es| - 1] == last;
    var k :| 0 <= k <= |bs| && DerivesAll(es[..|es| - 1], bs[..k], rule) && Derives(es[|es| - 1], bs[k..], rule);
    front, back := bs[..k], bs[k..];
  }

  /** A derivation of a concatenation of three children splits into one derivation of each. */
  lemma SplitThree(x: Expr, y: Expr, z: Expr, bs: seq<byte>, rule: CountRule) returns (a: seq<byte>, b: seq<byte>, c: seq<byte>)
    requires DerivesAll([x, y, z], bs, rule)
    ensures bs == a + b + c
    ensures Derives(x, a, rule) && Derives(y, b, rule) && Derives(z, c, rule)
  {
    assert [x, y, z] == [x, y] + [z];
    var ab;
    ab, c := SplitLast([x, y], z, bs, rule);
    assert [x, y] == [x] + [y];
    var a';
    a', b := SplitLast([x], y, ab, rule);
    assert [x] == [] + [x];
    var none;
    none, a := SplitLast([], x, a', rule);
  }

  /** Test `gen_start_end_line`: `(?m)^a$` yields `a` followed by the newline `$` writes. */
  lemma MultilineScenario(maxRepeat: u32, bs: seq<byte>)
    requires Produces(Concat([StartLine, Char('a'), EndLine]), maxRepeat, bs)
    ensures bs == [0x61, 0x0A]
  {
    var rule := GeneratorCounts(maxRepeat);
    var a, b, c := SplitThree(StartLine, Char('a'), EndLine, bs, rule);
    AsciiCharOutput('a', b, rule);
  }
}
