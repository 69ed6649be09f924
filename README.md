# regex_generate: a verified model of the generation engine

`regex_generate` writes random byte strings that match a regular expression.
A `Generator` holds a parsed pattern tree (`regex_syntax::Expr`), a random
number generator and a repetition bound `max_repeat`, which defaults to 100.
`generate` walks the tree and appends to a sink the bytes of one string that
matches it. This project models that walk (`src/lib.rs`) in Dafny and proves
what it writes.

Modules, one per part of the engine:

- `Base` (base.dfy): bytes, `u32`, `Option`, and the half-open `Interval` that `gen_range(lo, hi)` takes.
- `Syntax` (syntax.dfy): the node kinds the walk dispatches on. These are the
  empty pattern, the zero-width assertions, `EndLine`, the any-character and
  any-byte nodes, literals, classes, groups, concatenation, alternation and
  repetition.
- `Utf8` (utf8.dfy): the UTF-8 encoding of section 3 of RFC 3629, which
  `write_char` uses, and a strict decoder. The decoder plays the part of
  `String::from_utf8`. The encoder and decoder are proved inverse in both
  directions.
- `Quantifier` (quantifier.dfy): the counts a quantifier allows, and the
  interval the generator draws a repetition count from.
- `Sampling` (sampling.dfy): `char::from_u32` and the intervals that range
  values are drawn from.
- `Semantics` (semantics.dfy): one structural relation, `Derives`, used with
  two rules for repetition counts:
  - `Matches(e, bs)`: the pattern's language. Any count the quantifier allows is accepted.
  - `Produces(e, maxRepeat, bs)`: the outputs the generator can write. The count
    must come from the generator's draw interval.
  - `WellFormed(e, maxRepeat)`: the conditions under which the source walks the tree without panicking,
    except a byte range ending at 0xFF, which the model draws from as intended (see "## Findings").
  - The headline lemma `ProducesMatches`: whatever the generator can write matches the pattern.
- `Generation` (generator.dfy): the rng oracle, the sink, and the `Generator`
  class with `Generate` and the recursive walk. Each method appends to the
  sink and is proved against `Produces`.
- `Scenarios` (scenarios.dfy): patterns of the source's tests, plus one nested
  alternation as an extra case, as trees, with what the generator can write for each.

Randomness is the class `Rng`. Its methods promise only that a value lies in
the requested range, or is a scalar value or a byte. The proofs rely on
nothing else, so they hold for any random source. The generator's tree and
bound are `const` fields. Only the `Rng` object and the sink change.

Where the usual reading of the quantifiers and the code disagree, the model
follows the code:
- The code uses half-open Rust ranges. A greedy unbounded quantifier therefore
  draws at most `max_repeat - 1` repetitions, not `max_repeat`.
- Some inputs make `gen_range(lo, hi)` panic because `lo >= hi`: `max_repeat`
  0 with `*`, `max_repeat` of at most 1 with `+`, and `{min,}` with
  `min >= max_repeat`. The usual reading of `*`, `+` and `{min,}` takes these as degenerate intervals. Here
  they are excluded by `WellFormed`.
- Classes are sampled by picking one range uniformly and then a value inside
  it. There is no width-weighted sampler in this code.
- `.` reaches the walk as `AnyChar` or `AnyCharNoNL` nodes, not as a class.

## Model

| member | source | states |
|---|---|---|
| `Utf8.EncodeScalar` | src/lib.rs:50-55 | the encoding of a char is 1 to 4 bytes; it is one byte exactly for ASCII, that byte being the value; every byte after the first is a continuation byte |
| `Utf8.EncodeString` | src/lib.rs:76-79 | the bytes of a string number between its length and four times its length |
| `Utf8.DecodeFirst` | src/lib.rs:159-161 | a successful decode consumes 1 to 4 bytes, never more than are present |
| `Utf8.DecodeFirstEncode` | src/lib.rs:50-55 | decoding the front of an encoded char gives back that char and its length, whatever bytes follow |
| `Utf8.EncodeDecodeFirst` | src/lib.rs:50-55 | the bytes a successful decode consumed are exactly the encoding of the char it found (each scalar has one encoding) |
| `Utf8.ScalarOfEncode` | src/lib.rs:50-55 | the bytes `write_char` writes decode to exactly the char written |
| `Utf8.EncodeScalarOf` | src/lib.rs:50-55 | bytes that decode to exactly one char are that char's encoding |
| `Utf8.DecodeEncodeString` | src/lib.rs:76-79 | the bytes written for a literal decode to its chars |
| `Utf8.EncodeDecodeString` | src/lib.rs:76-79 | valid UTF-8 is the encoding of the text it decodes to |
| `Utf8.EncodeStringAppend` | src/lib.rs:76-79 | encoding distributes over concatenation of strings |
| `Utf8.DecodeString` | src/lib.rs:159 | the part of `String::from_utf8`: a successful decode yields between a quarter of the byte count and the byte count of chars; with `DecodeEncodeString` and `EncodeDecodeString` it is the inverse of `EncodeString` |
| `Utf8.DecodeStringAppend` | src/lib.rs:159-161 | the concatenation of two valid UTF-8 sequences is valid, and its text is their texts joined |
| `Quantifier.RepeatRange` | src/lib.rs:105-111 | the count interval starts at the quantifier's minimum. Lazy: the minimum is the only count. Greedy bounded: exactly the counts the quantifier allows. Greedy unbounded: the allowed counts below `max_repeat` |
| `Quantifier.RepeatRangeSound` | src/lib.rs:105-112 | every count the generator can draw is one the quantifier allows |
| `Sampling.FromU32` | src/lib.rs:86-88 | `from_u32` gives a char exactly for scalar values, and the char has that value |
| `Sampling.CharDrawInterval` | src/lib.rs:83-86 | the draw interval `start..end + 1` holds exactly the values of the range, and its end fits in a `u32` |
| `Sampling.DrawOutsideSurrogatesIsScalar` | src/lib.rs:85-90 | a value drawn from a range clear of the surrogate block is always accepted |
| `Sampling.ByteDrawIntervalAsWritten` | src/lib.rs:127 | the `u8` end `range.end + 1` as written: it wraps to 0 when the range ends at 0xFF |
| `Sampling.AsWrittenTopByteEmpty` | src/lib.rs:127 | for every byte range ending at 0xFF the interval as written is empty, so `gen_range` panics |
| `Sampling.AsWrittenNegatedClassPanics` | src/lib.rs:124-127 | for the range 0x62..0xFF the interval as written is `0x62..0` |
| `Sampling.ByteDrawInterval` | src/lib.rs:124-127 | the intended byte interval holds exactly the bytes of the range, and agrees with the code whenever the range ends below 0xFF |
| `Semantics.ProducesMatches` | src/lib.rs:57-131 | soundness: every output the generator can write for a well-formed tree belongs to the pattern's language |
| `Semantics.ProducesMatchesAll` | src/lib.rs:93-98 | soundness for a sequence of concatenated children |
| `Semantics.ProducesMatchesN` | src/lib.rs:113-115 | soundness for a number of successive repetitions |
| `Semantics.LazyRepeatIsMinimal` | src/lib.rs:104-117 | a lazy quantifier yields an output exactly when that output is its operand repeated the quantifier's minimum number of times |
| `Semantics.TextIsUtf8` | src/lib.rs:159-161 | every derivation of a pattern without byte-level nodes is valid UTF-8, as the tests require of each output |
| `Semantics.TextIsUtf8All` | src/lib.rs:93-98 | valid UTF-8 for concatenated children |
| `Semantics.TextIsUtf8N` | src/lib.rs:113-115 | valid UTF-8 for successive repetitions |
| `Generation.Rng.GenChar` | src/lib.rs:68 | the oracle behind `rng.gen::<char>()`: it returns some scalar value, and nothing more is promised |
| `Generation.Rng.GenByte` | src/lib.rs:118 | the oracle behind `rng.gen::<u8>()`: it returns some byte, and nothing more is promised |
| `Generation.Rng.GenRange` | src/lib.rs:81 | the oracle behind `gen_range(lo, hi)`: it requires `lo < hi` and returns a value in `lo..hi` |
| `Generation.Sink.Write` | src/lib.rs:53 | a write appends exactly the given bytes to the sink |
| `Generation.Generator.constructor` | src/lib.rs:35-42 | the generator stores the tree, the rng and the repetition bound it is given |
| `Generation.Generator.WithDefaultBound` | src/lib.rs:29-31 | the generator's repetition bound is `DEFAULT_MAX_REPEAT` (100) |
| `Generation.Generator.Generate` | src/lib.rs:45-47 | the sink's earlier contents stay as a prefix. On success the appended bytes are an output of the generator and match the pattern, and they are valid UTF-8 for a text pattern. With at least one draw per resampling loop, it fails only if the tree has a loop that can reject a draw |
| `Generation.Generator.WriteChar` | src/lib.rs:50-55 | appends the UTF-8 encoding of the char, which decodes back to that char |
| `Generation.Generator.GenerateFromExpr` | src/lib.rs:49-133 | appends to the sink; on success the appended bytes are a generator output for the node; it fails only where a resampling loop can reject a draw |
| `Generation.Generator.GenerateCharNoNewline` | src/lib.rs:71-75 | on success appends the encoding of exactly one scalar value other than `'\n'` |
| `Generation.Generator.GenerateByteNoNewline` | src/lib.rs:119-123 | on success appends exactly one byte other than 0x0A |
| `Generation.Generator.GenerateClass` | src/lib.rs:80-91 | on success appends the encoding of exactly one scalar value lying in some range of the class. A class whose ranges avoid the surrogate block never fails |
| `Generation.Generator.GenerateClassBytes` | src/lib.rs:124-129 | appends exactly one byte lying in some range of the class |
| `Generation.Generator.GenerateConcat` | src/lib.rs:93-98 | on success the appended bytes are the children's outputs in order, left to right |
| `Generation.Generator.GenerateRepeat` | src/lib.rs:104-117 | on success the appended bytes are a count, drawn from the quantifier's interval, of successive outputs of the child |
| `Scenarios.LiteralScenario` | src/lib.rs:212-215 | `aBcDe` always yields exactly its five bytes |
| `Scenarios.LazyStarScenario` | src/lib.rs:257-260 | `a*?` always yields nothing |
| `Scenarios.LazyPlusScenario` | src/lib.rs:262-265 | `a+?` always yields exactly one `a` |
| `Scenarios.BoundedRangeScenario` | src/lib.rs:237-240 | `a{3,8}` always yields three to eight `a`s |
| `Scenarios.GreedyStarScenario` | src/lib.rs:227-230 | `a*` yields only `a`s, fewer of them than the repetition bound |
| `Scenarios.AlternateScenario` | src/lib.rs:292-295 | `a` or `b` (test `gen_alternate`) always yields exactly `a` or exactly `b` |
| `Scenarios.NestedAlternationScenario` | src/lib.rs:99-103 | an extra case beyond the tests: the nested alternation of `a`, `b` and of `c`, `d` always yields exactly one of `a`, `b`, `c`, `d` |
| `Scenarios.MultilineScenario` | src/lib.rs:187-190 | `(?m)^a$` yields `a` followed by the newline written for the end-of-line assertion |

## Left out

- Pattern parsing (`Expr::parse`) and the `chain_err` error wrapping: the parser is a foreign library, and a tree is given to the constructor directly. The `errors` module is not part of this model.
- The sink is an append that cannot fail. I/O errors, the ignored write counts and the `.expect("Fail")` panics inside Concat and Repeat are not modelled. In this model a child that fails aborts the walk and passes its outcome on.
- Termination of the three resampling loops (AnyCharNoNL, AnyByteNoNL, Class) is only probabilistic in the source. Here each loop makes at most `limit` draws and reports `RetriesExhausted` when they are used up. `Generate` proves that this can happen only when the tree contains a loop that can reject a draw.
- Probabilities and uniformity of the draws: the random source is nondeterministic here, so only ranges and membership are proved.
- `rng.gen::<char>()`, `rng.gen::<u8>()` and `gen_range` belong to the `rand` crate. They are modelled by their contracts, and the linear congruential body behind them is a stand-in.
- `casei`, the group index and the group name are carried in the tree but ignored, as the code ignores them. `Matches` reads a literal exactly, so it does not accept the other case variants that a case-insensitive regex would.
- `Semantics.ProducesMatches`: the context that zero-width assertions require is not part of `Matches`. Word boundaries and start or end of text or line are read as the empty string, and `EndLine` as the newline the generator writes. So `Matches` does not show that, for example, `a\bb` yields `ab`, which the regex does not match.
- `Semantics.ProducesMatches`, `Generation.Generator.Generate`, `Generation.Generator.GenerateFromExpr`: `WellFormed` is required of the whole tree. The source panics only when it reaches the offending node, so a bad node in an alternative that is never chosen does no harm there.
- Panics from an empty `gen_range` interval, and from the `u32` overflow of `+ 1` in `min + 1` or `max + 1`, are not modelled as outcomes. `WellFormed` excludes them.
- The test harness that uses the `regex` crate, `benches/bench.rs`, `examples/url.rs` and `examples/date.rs` are not modelled. Those files also call a different API from the one in `src/lib.rs`. The test patterns appear only as the lemmas in `Scenarios`.

## Findings

| source | as written | input that shows it | evidently intended | confidence | as-written member | corrected member |
|---|---|---|---|---|---|---|
| src/lib.rs:127 | `gen_range(range.start, range.end + 1)` computes `range.end + 1` in `u8`. For a range ending at 0xFF this overflows: a debug build panics, and a release build wraps to 0, after which `gen_range(start, 0)` panics | the tree `ClassBytes([ByteRange(0x00, 0x60), ByteRange(0x62, 0xFF)])`, the byte class one would write as `(?-u)[^a]`; whether `Expr::parse` with its default settings ever builds such a tree is not established | draw one byte from `start..=end` | not executed; high for the overflow, reachability through the parser unknown | `Sampling.ByteDrawIntervalAsWritten`, shown by `Sampling.AsWrittenTopByteEmpty` and `Sampling.AsWrittenNegatedClassPanics` | `Sampling.ByteDrawInterval` (used by `Generation.Generator.GenerateClassBytes`) |
