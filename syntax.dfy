/**
 * The parsed pattern tree the generator walks: the node kinds of the
 * `regex_syntax::Expr` type it dispatches on, with their payloads. The parser
 * that builds such trees is not part of this model.
 */
module Syntax {
  import opened Base

  /** A repetition operator: `?`, `*`, `+` and `{min}`, `{min,}`, `{min,max}`. */
  datatype Repeater =
    | ZeroOrOne
    | ZeroOrMore
    | OneOrMore
    | Range(min: u32, max: Option<u32>)

  /** An inclusive range of scalar values in a Unicode class. */
  datatype ClassRange = ClassRange(start: char, end: char)

  /** An inclusive range of byte values in a byte class. */
  datatype ByteRange = ByteRange(start: byte, end: byte)

  datatype Expr =
    | Empty
    | StartLine
    | EndLine
    | StartText
    | EndText
    | WordBoundary
    | NotWordBoundary
    | WordBoundaryAscii
    | NotWordBoundaryAscii
    | AnyChar
    | AnyCharNoNL
    | AnyByte
    | AnyByteNoNL
    | Literal(chars: seq<char>, casei: bool)
    | LiteralBytes(bytes: seq<byte>, casei: bool)
    | Class(ranges: seq<ClassRange>)
    | ClassBytes(byteRanges: seq<ByteRange>)
    | Group(e: Expr, i: Option<nat>, name: Option<string>)
    | Concat(exps: seq<Expr>)
    | Alternate(exps: seq<Expr>)
    | Repeat(e: Expr, r: Repeater, greedy: bool)
}
