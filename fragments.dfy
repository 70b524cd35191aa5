/**
 * The renderable units of SQL: a Fragment is text with the bind values it
 * carries, in the order of their placeholders; a Piece is what the grammar
 * combinators pass around, either a plain string or a Fragment.
 */
module Fragments {

  /** A bind value. The builder never inspects it; it is passed through to the adapter. */
  datatype Value = Num(n: int) | Txt(s: string)

  /** SQL text plus its ordered bind arguments. */
  datatype Fragment = Fragment(text: string, args: seq<Value>)

  /** An element of a fragment list: a plain string or a Fragment. */
  datatype Piece = Str(s: string) | Frag(f: Fragment)

  /** The text a piece contributes (`toString()` of a string or a Fragment). */
  function TextOf(p: Piece): string {
    match p
    case Str(s) => s
    case Frag(f) => f.text
  }

  /** The bind arguments a piece contributes: plain strings carry none. */
  function ArgsOf(p: Piece): seq<Value> {
    match p
    case Str(_) => []
    case Frag(f) => f.args
  }
}
