/**
 * The generator of src/lib.rs: a pattern tree, a random number generator and
 * a repetition bound, and the recursive walk that appends to a byte sink the
 * bytes of one output for the tree.
 */
module Generation {
  import opened Base
  import opened Utf8
  import opened Syntax
  import opened Quantifier
  import opened Sampling
  import opened Semantics

  const DEFAULT_MAX_REPEAT: u32 := 100

  /**
   * The random number generator the walk consumes. Callers rely only on the
   * contracts: `GenRange(lo, hi)` returns some value of `lo..hi`, `GenChar`
   * some scalar value, `GenByte` some byte. The linear congruential state
   * behind them is a stand-in for any such generator.
   */
  class Rng {
    var state: nat

    constructor (seed: nat)
      ensures state == seed
    {
      state := seed;
    }

    method Step()
      modifies this
    {
      state := (state * 6364136223846793005 + 1442695040888963407) % 0x1_0000_0000_0000_0000;
    }

    /** `rng.gen_range(lo, hi)`, which requires `lo < hi`. */
    method GenRange(lo: int, hi: int) returns (r: int)
      requires lo < hi
      modifies this
      ensures lo <= r < hi
    {
      r := lo + state % (hi - lo);
      Step();
    }

    /** `rng.gen::<char>()`: any scalar value. */
    method GenChar() returns (c: char)
      modifies this
      ensures IsScalar(c as int)
    {
      var v := state % (0x11_0000 - 0x800);
      c := if v < 0xD800 then v as char else (v + 0x800) as char;
      Step();
    }

    /** `rng.gen::<u8>()`: any byte. */
    method GenByte() returns (b: byte)
      modifies this
      ensures 0 <= b < 0x100
    {
      b := state % 0x100;
      Step();
    }
  }

  /** The `io::Write` the output goes to, taken as an append that cannot fail. */
  class Sink {
    var bytes: seq<byte>

    constructor ()
      ensures bytes == []
    {
      bytes := [];
    }

    method Write(bs: seq<byte>)
      modifies this
      ensures bytes == old(bytes) + bs
    {
      bytes := bytes + bs;
    }
  }

  /**
   * The result of one walk. `RetriesExhausted` stands for a resampling loop
   * that used up its draws: the source loops until a draw is accepted, and
   * the model bounds each such loop by `limit` draws.
   */
  datatype Outcome = Pass | RetriesExhausted

  class Generator {
    const expr: Expr
    const rng: Rng
    const maxRepeat: u32

    /** `Generator::new`, given the tree its parser produced. */
    constructor (expr: Expr, rng: Rng, maxRepeat: u32)
      ensures this.expr == expr && this.rng == rng && this.maxRepeat == maxRepeat
    {
      this.expr := expr;
      this.rng := rng;
      this.maxRepeat := maxRepeat;
    }

    /** `Generator::parse`, given the tree its parser produced: the default bound. */
    constructor WithDefaultBound(expr: Expr, rng: Rng)
      ensures this.expr == expr && this.rng == rng && this.maxRepeat == DEFAULT_MAX_REPEAT
    {
      this.expr := expr;
      this.rng := rng;
      this.maxRepeat := DEFAULT_MAX_REPEAT;
    }

    /**
     * Appends one output for the pattern to `sink`. The earlier contents of
     * the sink stay as a prefix; on `Pass` the appended bytes are an output
     * of the generator and so belong to the pattern's language. Only the
     * random number generator and the sink change: the tree and the bound
     * are constant fields.
     */
    method Generate(sink: Sink, limit: nat) returns (o: Outcome)
      requires WellFormed(expr, maxRepeat)
      modifies rng, sink
      ensures old(sink.bytes) <= sink.bytes
      ensures o.Pass? ==> Produces(expr, maxRepeat, sink.bytes[|old(sink.bytes)|..])
      ensures o.Pass? ==> Matches(expr, sink.bytes[|old(sink.bytes)|..])
      ensures o.Pass? && IsText(expr) ==> DecodeString(sink.bytes[|old(sink.bytes)|..]).Some?
      ensures 0 < limit && !MayResample(expr) ==> o.Pass?
    {
      o := GenerateFromExpr(sink, expr, rng, maxRepeat, limit);
      if o.Pass? {
        ProducesMatches(expr, maxRepeat, sink.bytes[|old(sink.bytes)|..]);
        if IsText(expr) {
          TextIsUtf8(expr, sink.bytes[|old(sink.bytes)|..], GeneratorCounts(maxRepeat));
        }
      }
    }

    /** `write_char`: the UTF-8 encoding of `c`. */
    static method WriteChar(c: char, sink: Sink)
      modifies sink
      ensures sink.bytes == old(sink.bytes) + EncodeScalar(c)
      ensures ScalarOf(sink.bytes[|old(sink.bytes)|..]) == Some(c)
    {
      sink.Write(EncodeScalar(c));
      assert sink.bytes[|old(sink.bytes)|..] == EncodeScalar(c);
      ScalarOfEncode(c);
    }

    /** `generate_from_expr`: one output for `e`, appended to `sink`. */
    static method GenerateFromExpr(sink: Sink, e: Expr, rng: Rng, maxRepeat: u32, limit: nat) returns (o: Outcome)
      requires WellFormed(e, maxRepeat)
      modifies sink, rng
      decreases e, 0
      ensures old(sink.bytes) <= sink.bytes
      ensures o.Pass? ==> Produces(e, maxRepeat, sink.bytes[|old(sink.bytes)|..])
      ensures 0 < limit && !MayResample(e) ==> o.Pass?
    {
      match e
      case Empty | StartText | EndText | WordBoundary | NotWordBoundary
        | WordBoundaryAscii | NotWordBoundaryAscii | StartLine =>
        o := Pass;
      case EndLine =>
        WriteChar(NEWLINE, sink);
        o := Pass;
      case AnyChar =>
        var c := rng.GenChar();
        WriteChar(c, sink);
        o := Pass;
      case AnyCharNoNL =>
        o := GenerateCharNoNewline(sink, rng, limit);
      case Literal(chars, _) =>
        sink.Write(EncodeString(chars));
        assert sink.bytes[|old(sink.bytes)|..] == EncodeString(chars);
        DecodeEncodeString(chars);
        o := Pass;
      case Class(ranges) =>
        o := GenerateClass(sink, ranges, rng, limit);
      case Group(child, _, _) =>
        o := GenerateFromExpr(sink, child, rng, maxRepeat, limit);
      case Concat(es) =>
        o := GenerateConcat(sink, es, rng, maxRepeat, limit);
      case Alternate(es) =>
        var idx := rng.GenRange(0, |es|);
        o := GenerateFromExpr(sink, es[idx], rng, maxRepeat, limit);
      case Repeat(child, r, greedy) =>
        o := GenerateRepeat(sink, child, r, greedy, rng, maxRepeat, limit);
      case AnyByte =>
        var b := rng.GenByte();
        sink.Write([b]);
        o := Pass;
      case AnyByteNoNL =>
        o := GenerateByteNoNewline(sink, rng, limit);
      case ClassBytes(ranges) =>
        GenerateClassBytes(sink, ranges, rng);
        o := Pass;
      case LiteralBytes(bytes, _) =>
        sink.Write(bytes);
        o := Pass;
    }

    /** `Expr::AnyCharNoNL`: draw scalar values until one is not a newline. */
    static method GenerateCharNoNewline(sink: Sink, rng: Rng, limit: nat) returns (o: Outcome)
      modifies sink, rng
      ensures old(sink.bytes) <= sink.bytes
      ensures o.Pass? ==> ScalarOf(sink.bytes[|old(sink.bytes)|..]).Some?
      ensures o.Pass? ==> ScalarOf(sink.bytes[|old(sink.bytes)|..]).value != NEWLINE
    {
      var c := NEWLINE;
      var draws := 0;
      while c == NEWLINE && draws < limit
        modifies rng
        decreases limit - draws
      {
        c := rng.GenChar();
        draws := draws + 1;
      }
      if c == NEWLINE {
        o := RetriesExhausted;
      } else {
        WriteChar(c, sink);
        o := Pass;
      }
    }

    /** `Expr::AnyByteNoNL`: draw bytes until one is not a newline. */
    static method GenerateByteNoNewline(sink: Sink, rng: Rng, limit: nat) returns (o: Outcome)
      modifies sink, rng
      ensures old(sink.bytes) <= sink.bytes
      ensures o.Pass? ==> |sink.bytes| == |old(sink.bytes)| + 1 && sink.bytes[|old(sink.bytes)|] != NEWLINE_U8
    {
      var b := NEWLINE_U8;
      var draws := 0;
      while b == NEWLINE_U8 && draws < limit
        modifies rng
        decreases limit - draws
      {
        b := rng.GenByte();
        draws := draws + 1;
      }
      if b == NEWLINE_U8 {
        o := RetriesExhausted;
      } else {
        sink.Write([b]);
        o := Pass;
      }
    }

    /**
     * `Expr::Class`: pick one range, then draw from it until the value is a
     * scalar. A range clear of the surrogate block is never drawn from twice.
     */
    static method GenerateClass(sink: Sink, ranges: seq<ClassRange>, rng: Rng, limit: nat) returns (o: Outcome)
      requires |ranges| > 0 && forall i :: 0 <= i < |ranges| ==> ranges[i].start <= ranges[i].end
      modifies sink, rng
      ensures old(sink.bytes) <= sink.bytes
      ensures o.Pass? ==> ScalarOf(sink.bytes[|old(sink.bytes)|..]).Some?
      ensures o.Pass? ==> InClass(ranges, ScalarOf(sink.bytes[|old(sink.bytes)|..]).value)
      ensures 0 < limit && !MayResample(Class(ranges)) ==> o.Pass?
    {
      var idx := rng.GenRange(0, |ranges|);
      var span := CharDrawInterval(ranges[idx]);
      o := RetriesExhausted;
      var draws := 0;
      while draws < limit
        invariant !OverlapsSurrogates(ranges[idx]) ==> draws == 0
        invariant sink.bytes == old(sink.bytes)
        modifies rng, sink
        decreases limit - draws
      {
        var v := rng.GenRange(span.lo, span.hi);
        draws := draws + 1;
        match FromU32(v)
        case Some(c) =>
          WriteChar(c, sink);
          o := Pass;
          return;
        case None =>
          if !OverlapsSurrogates(ranges[idx]) {
            DrawOutsideSurrogatesIsScalar(ranges[idx], v);
          }
      }
    }

    /** `Expr::ClassBytes`: pick one range, then one byte of it. */
    static method GenerateClassBytes(sink: Sink, ranges: seq<ByteRange>, rng: Rng)
      requires |ranges| > 0 && forall i :: 0 <= i < |ranges| ==> ranges[i].start <= ranges[i].end
      modifies sink, rng
      ensures |sink.bytes| == |old(sink.bytes)| + 1 && sink.bytes[..|old(sink.bytes)|] == old(sink.bytes)
      ensures InByteClass(ranges, sink.bytes[|old(sink.bytes)|])
    {
      var idx := rng.GenRange(0, |ranges|);
      var span := ByteDrawInterval(ranges[idx]);
      var b := rng.GenRange(span.lo, span.hi);
      sink.Write([b]);
    }

    /** `Expr::Concat`: the children's outputs, left to right. */
    static method GenerateConcat(sink: Sink, es: seq<Expr>, rng: Rng, maxRepeat: u32, limit: nat) returns (o: Outcome)
      requires forall i :: 0 <= i < |es| ==> WellFormed(es[i], maxRepeat)
      modifies sink, rng
      decreases es, 1
      ensures old(sink.bytes) <= sink.bytes
      ensures o.Pass? ==> DerivesAll(es, sink.bytes[|old(sink.bytes)|..], GeneratorCounts(maxRepeat))
      ensures 0 < limit && !MayResample(Concat(es)) ==> o.Pass?
    {
      ghost var start := |sink.bytes|;
      for i := 0 to |es|
        invariant old(sink.bytes) <= sink.bytes
        invariant DerivesAll(es[..i], sink.bytes[start..], GeneratorCounts(maxRepeat))
      {
        ghost var before := sink.bytes;
        o := GenerateFromExpr(sink, es[i], rng, maxRepeat, limit);
        if o.RetriesExhausted? {
          return;
        }
        ConcatStep(es, i, before, sink.bytes, start, GeneratorCounts(maxRepeat));
      }
      assert es[..|es|] == es;
      o := Pass;
    }

    /** `Expr::Repeat`: resolve the count, then that many outputs of the child in sequence. */
    static method GenerateRepeat(sink: Sink, child: Expr, r: Repeater, greedy: bool, rng: Rng, maxRepeat: u32, limit: nat)
      returns (o: Outcome)
      requires WellFormed(Repeat(child, r, greedy), maxRepeat)
      modifies sink, rng
      decreases child, 1
      ensures old(sink.bytes) <= sink.bytes
      ensures o.Pass? ==> Produces(Repeat(child, r, greedy), maxRepeat, sink.bytes[|old(sink.bytes)|..])
      ensures 0 < limit && !MayResample(child) ==> o.Pass?
    {
      ghost var start := |sink.bytes|;
      var range := RepeatRange(r, greedy, maxRepeat);
      var count := rng.GenRange(range.lo, range.hi);
      assert CountOk(GeneratorCounts(maxRepeat), r, greedy, count);
      for j := 0 to count
        invariant old(sink.bytes) <= sink.bytes
        invariant DerivesN(child, j, sink.bytes[start..], GeneratorCounts(maxRepeat))
      {
        ghost var before := sink.bytes;
        o := GenerateFromExpr(sink, child, rng, maxRepeat, limit);
        if o.RetriesExhausted? {
          return;
        }
        RepeatStep(child, j, before, sink.bytes, start, GeneratorCounts(maxRepeat));
      }
      o := Pass;
    }
  }

  /** After an append, the part written since `start` splits into the earlier part and the new one. */
  lemma SplitAppended(before: seq<byte>, after: seq<byte>, start: nat)
    requires start <= |before| && before <= after
    ensures after[start..][..|before| - start] == before[start..]
    ensures after[start..][|before| - start..] == after[|before|..]
  {
  }

  /** Extending a derivation of the first `i` children by an appended one of child `i`. */
  lemma ConcatStep(es: seq<Expr>, i: nat, before: seq<byte>, after: seq<byte>, start: nat, rule: CountRule)
    requires i < |es| && start <= |before| && before <= after
    requires DerivesAll(es[..i], before[start..], rule) && Derives(es[i], after[|before|..], rule)
    ensures DerivesAll(es[..i + 1], after[start..], rule)
  {
    SplitAppended(before, after, start);
    assert es[..i + 1][..i] == es[..i];
  }

  /** Extending `j` repetitions by an appended one. */
  lemma RepeatStep(e: Expr, j: nat, before: seq<byte>, after: seq<byte>, start: nat, rule: CountRule)
    requires start <= |before| && before <= after
    requires DerivesN(e, j, before[start..], rule) && Derives(e, after[|before|..], rule)
    ensures DerivesN(e, j + 1, after[start..], rule)
  {
    SplitAppended(before, after, start);
  }
}
