/**
 * The steps of class sampling in src/lib.rs: turning a drawn `u32` back into a
 * scalar value (`std::char::from_u32`), and the interval a byte range is drawn
 * from, as written and as intended.
 */
module Sampling {
  import opened Base
  import opened Utf8
  import opened Syntax

  /** `std::char::from_u32`: the scalar value `v` names, if it names one. */
  function FromU32(v: u32): (r: Option<char>)
    ensures r.Some? <==> IsScalar(v)
    ensures r.Some? ==> r.value as int == v
  {
    if IsScalar(v) then Some(v as char) else None
  }

  /** Some range of the class contains `c`. */
  predicate InClass(ranges: seq<ClassRange>, c: char) {
    exists i :: 0 <= i < |ranges| && ranges[i].start <= c <= ranges[i].end
  }

  /** Some range of the byte class contains `b`. */
  predicate InByteClass(ranges: seq<ByteRange>, b: byte) {
    exists i :: 0 <= i < |ranges| && ranges[i].start <= b <= ranges[i].end
  }

  /** The range contains a surrogate code point, which `from_u32` rejects. */
  predicate OverlapsSurrogates(range: ClassRange) {
    range.start as int <= 0xDFFF && 0xD800 <= range.end as int
  }

  /** The interval `start..end + 1` a scalar range is drawn from; `end + 1` cannot overflow a `u32`. */
  function CharDrawInterval(range: ClassRange): (span: Interval)
    ensures span.hi < U32_LIMIT
    ensures forall v :: span.Contains(v) <==> range.start as int <= v <= range.end as int
  {
    Interval(range.start as int, range.end as int + 1)
  }

  /** A value drawn from a range that avoids the surrogate block is always a scalar value. */
  lemma DrawOutsideSurrogatesIsScalar(range: ClassRange, v: int)
    requires CharDrawInterval(range).Contains(v) && !OverlapsSurrogates(range)
    ensures IsScalar(v)
  {
  }

  /**
   * The byte interval as written: `range.end + 1` is computed in `u8`, which
   * wraps to 0 when the range ends at 0xFF (a release build; a debug build
   * panics on the overflow itself).
   */
  function ByteDrawIntervalAsWritten(range: ByteRange): (span: Interval)
    ensures span.lo == range.start
    ensures span.hi == if range.end == 0xFF then 0 else range.end + 1
  {
    Interval(range.start, (range.end + 1) % 0x100)
  }

  /** For every range ending at 0xFF the interval as written is empty, so `gen_range` panics. */
  lemma AsWrittenTopByteEmpty(range: ByteRange)
    requires range.end == 0xFF
    ensures !(ByteDrawIntervalAsWritten(range).lo < ByteDrawIntervalAsWritten(range).hi)
  {
  }

  /** A concrete input: the upper range of `(?-u)[^a]`, 0x62..0xFF. */
  lemma AsWrittenNegatedClassPanics()
    ensures var span := ByteDrawIntervalAsWritten(ByteRange(0x62, 0xFF)); span.lo == 0x62 && span.hi == 0
  {
  }

  /** The intended interval, computed without wrap-around: it holds exactly the bytes of the range. */
  function ByteDrawInterval(range: ByteRange): (span: Interval)
    ensures forall b :: span.Contains(b) <==> range.start <= b <= range.end
    ensures range.end < 0xFF ==> span == ByteDrawIntervalAsWritten(range)
  {
    Interval(range.start, range.end as int + 1)
  }
}
