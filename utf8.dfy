/**
 * UTF-8 as defined in section 3 of RFC 3629: the encoding `char::encode_utf8`
 * applies to one scalar value, the encoding `String::as_bytes` exposes for a
 * sequence of them, and a strict decoder (the check `String::from_utf8`
 * performs) used as the reference meaning of "these bytes spell this text".
 */
module Utf8 {
  import opened Base

  /** Unicode scalar values: code points outside the surrogate block D800..DFFF. */
  predicate IsScalar(v: int) {
    0 <= v < 0xD800 || 0xE000 <= v < 0x11_0000
  }

  /** A continuation byte, 10xxxxxx. */
  predicate IsContinuation(b: byte) {
    0x80 <= b < 0xC0
  }

  /**
   * The one- to four-byte encoding of the table in section 3 of RFC 3629: the
   * value is cut into 6-bit groups, the leading byte carries the top group
   * behind its length marker and each continuation byte one further group.
   */
  function EncodeScalar(c: char): (bs: seq<byte>)
    ensures 1 <= |bs| <= 4
    ensures |bs| == 1 <==> c as int < 0x80
    ensures |bs| == 1 ==> bs[0] == c as int
    ensures forall k :: 1 <= k < |bs| ==> IsContinuation(bs[k])
  {
    var v := c as int;
    var v1 := v / 0x40;
    var v2 := v1 / 0x40;
    var v3 := v2 / 0x40;
    if v < 0x80 then
      [v]
    else if v < 0x800 then
      [0xC0 + v1, 0x80 + v % 0x40]
    else if v < 0x1_0000 then
      [0xE0 + v2, 0x80 + v1 % 0x40, 0x80 + v % 0x40]
    else
      [0xF0 + v3, 0x80 + v2 % 0x40, 0x80 + v1 % 0x40, 0x80 + v % 0x40]
  }

  /** The encoding of a sequence of scalar values: their encodings, in order. */
  function EncodeString(s: seq<char>): (bs: seq<byte>)
    ensures |s| <= |bs| <= 4 * |s|
  {
    if s == [] then [] else EncodeScalar(s[0]) + EncodeString(s[1..])
  }

  /**
   * Decodes the scalar value at the front of `bs`, with the number of bytes it
   * occupies. Overlong forms, surrogates and values above 10FFFF are rejected,
   * as section 3 of RFC 3629 requires.
   */
  function DecodeFirst(bs: seq<byte>): (r: Option<(char, nat)>)
    ensures r.Some? ==> 1 <= r.value.1 <= |bs| && r.value.1 <= 4
  {
    if |bs| == 0 then None
    else if bs[0] < 0x80 then Some((bs[0] as char, 1))
    else if 0xC0 <= bs[0] < 0xE0 then
      if |bs| < 2 || !IsContinuation(bs[1]) then None
      else
        var v := (bs[0] as int - 0xC0) * 0x40 + (bs[1] as int - 0x80);
        if v < 0x80 then None else Some((v as char, 2))
    else if 0xE0 <= bs[0] < 0xF0 then
      if |bs| < 3 || !IsContinuation(bs[1]) || !IsContinuation(bs[2]) then None
      else
        var v := ((bs[0] as int - 0xE0) * 0x40 + (bs[1] as int - 0x80)) * 0x40 + (bs[2] as int - 0x80);
        if v < 0x800 || !IsScalar(v) then None else Some((v as char, 3))
    else if 0xF0 <= bs[0] < 0xF8 then
      if |bs| < 4 || !IsContinuation(bs[1]) || !IsContinuation(bs[2]) || !IsContinuation(bs[3]) then None
      else
        var v := (((bs[0] as int - 0xF0) * 0x40 + (bs[1] as int - 0x80)) * 0x40 + (bs[2] as int - 0x80)) * 0x40 + (bs[3] as int - 0x80);
        if v < 0x1_0000 || 0x11_0000 <= v then None else Some((v as char, 4))
    else None
  }

  /** The scalar value that `bs` encodes, when `bs` is the encoding of exactly one. */
  function ScalarOf(bs: seq<byte>): Option<char> {
    match DecodeFirst(bs)
    case Some((c, n)) => if n == |bs| then Some(c) else None
    case None => None
  }

  /** Strict decoding of a whole byte sequence; None when it is not valid UTF-8. */
  function DecodeString(bs: seq<byte>): (r: Option<seq<char>>)
    decreases |bs|
    ensures r.Some? ==> |r.value| <= |bs| <= 4 * |r.value|
  {
    if bs == [] then Some([])
    else
      match DecodeFirst(bs)
      case None => None
      case Some((c, n)) =>
        match DecodeString(bs[n..])
        case None => None
        case Some(rest) => Some([c] + rest)
  }

  /** Euclidean division by 64 is determined by its quotient and remainder. */
  lemma Split(v: int, q: int, r: int)
    requires 0 <= r < 0x40 && v == q * 0x40 + r
    ensures v / 0x40 == q && v % 0x40 == r
  {
  }

  /** Decoding the front of an encoded scalar gives that scalar back, whatever follows it. */
  lemma DecodeFirstEncode(c: char, rest: seq<byte>)
    ensures DecodeFirst(EncodeScalar(c) + rest) == Some((c, |EncodeScalar(c)|))
  {
    var v := c as int;
    var v1 := v / 0x40;
    var v2 := v1 / 0x40;
    var v3 := v2 / 0x40;
    Split(v, v1, v % 0x40);
    Split(v1, v2, v1 % 0x40);
    Split(v2, v3, v2 % 0x40);
    var bs := EncodeScalar(c) + rest;
    if v < 0x80 {
    } else if v < 0x800 {
      assert bs[0] as int - 0xC0 == v1 && bs[1] as int - 0x80 == v % 0x40;
    } else if v < 0x1_0000 {
      assert bs[0] as int - 0xE0 == v2 && bs[1] as int - 0x80 == v1 % 0x40 && bs[2] as int - 0x80 == v % 0x40;
    } else {
      assert bs[0] as int - 0xF0 == v3 && bs[1] as int - 0x80 == v2 % 0x40;
      assert bs[2] as int - 0x80 == v1 % 0x40 && bs[3] as int - 0x80 == v % 0x40;
    }
  }

  /** The bytes a successful decoding consumed are exactly the encoding of the scalar it found. */
  lemma EncodeDecodeFirst(bs: seq<byte>)
    requires DecodeFirst(bs).Some?
    ensures bs[..DecodeFirst(bs).value.1] == EncodeScalar(DecodeFirst(bs).value.0)
  {
    var (c, n) := DecodeFirst(bs).value;
    var v := c as int;
    if n == 2 {
      var b0, b1 := bs[0] as int - 0xC0, bs[1] as int - 0x80;
      Split(v, b0, b1);
      Split(b0, 0, b0);
    } else if n == 3 {
      var b0, b1, b2 := bs[0] as int - 0xE0, bs[1] as int - 0x80, bs[2] as int - 0x80;
      Split(v, b0 * 0x40 + b1, b2);
      Split(b0 * 0x40 + b1, b0, b1);
    } else if n == 4 {
      var b0, b1, b2, b3 := bs[0] as int - 0xF0, bs[1] as int - 0x80, bs[2] as int - 0x80, bs[3] as int - 0x80;
      Split(v, (b0 * 0x40 + b1) * 0x40 + b2, b3);
      Split((b0 * 0x40 + b1) * 0x40 + b2, b0 * 0x40 + b1, b2);
      Split(b0 * 0x40 + b1, b0, b1);
    }
  }

  lemma ScalarOfEncode(c: char)
    ensures ScalarOf(EncodeScalar(c)) == Some(c)
  {
    DecodeFirstEncode(c, []);
    assert EncodeScalar(c) + [] == EncodeScalar(c);
  }

  lemma EncodeScalarOf(bs: seq<byte>)
    requires ScalarOf(bs).Some?
    ensures EncodeScalar(ScalarOf(bs).value) == bs
  {
    EncodeDecodeFirst(bs);
  }

  lemma {:induction false} DecodeEncodeString(s: seq<char>)
    ensures DecodeString(EncodeString(s)) == Some(s)
  {
    if s != [] {
      var head, rest := EncodeScalar(s[0]), EncodeString(s[1..]);
      DecodeFirstEncode(s[0], rest);
      assert (head + rest)[|head|..] == rest;
      DecodeEncodeString(s[1..]);
      assert [s[0]] + s[1..] == s;
    }
  }

  lemma {:induction false} EncodeDecodeString(bs: seq<byte>)
    requires DecodeString(bs).Some?
    ensures EncodeString(DecodeString(bs).value) == bs
    decreases |bs|
  {
    if bs != [] {
      var (c, n) := DecodeFirst(bs).value;
      var rest := DecodeString(bs[n..]).value;
      var s := DecodeString(bs).value;
      assert s == [c] + rest;
      EncodeDecodeFirst(bs);
      EncodeDecodeString(bs[n..]);
      assert s[0] == c && s[1..] == rest;
      assert EncodeString(s) == EncodeScalar(c) + EncodeString(rest);
      assert bs == bs[..n] + bs[n..];
    }
  }

  lemma {:induction false} EncodeStringAppend(s: seq<char>, t: seq<char>)
    ensures EncodeString(s + t) == EncodeString(s) + EncodeString(t)
  {
    if s != [] {
      assert (s + t)[1..] == s[1..] + t;
      EncodeStringAppend(s[1..], t);
    } else {
      assert s + t == t;
    }
  }

  /** Valid UTF-8 is closed under concatenation, and the text of the whole is the texts joined. */
  lemma DecodeStringAppend(a: seq<byte>, b: seq<byte>)
    requires DecodeString(a).Some? && DecodeString(b).Some?
    ensures DecodeString(a + b) == Some(DecodeString(a).value + DecodeString(b).value)
  {
    var sa, sb := DecodeString(a).value, DecodeString(b).value;
    EncodeDecodeString(a);
    EncodeDecodeString(b);
    EncodeStringAppend(sa, sb);
    DecodeEncodeString(sa + sb);
  }
}
