/**
 * Literals a variable can be compared with (`Literal`, `LiteralOrWildcard`).
 * Only their shapes are modelled here; the expression parser that builds
 * them is not part of this model.
 */
module Select {
  import opened Wrappers

  /** A 64-bit signed integer (`i64`). */
  type Int64 = x: int | -0x8000_0000_0000_0000 <= x < 0x8000_0000_0000_0000

  /** A machine address (`usize` on a 64-bit target). */
  type Addr = x: int | 0 <= x < 0x1_0000_0000_0000_0000

  datatype Literal =
    | String(text: string)
    | Int(i: Int64)
    | Address(addr: Addr)
    | Bool(b: bool)
    | EnumVariant(variant: string, payload: Option<Literal>)
    | Array(elems: seq<LiteralOrWildcard>)
    | AssocArray(fields: map<string, LiteralOrWildcard>)

  /** One position of an array or structure literal: a literal or `_`. */
  datatype LiteralOrWildcard = Lit(lit: Literal) | Wildcard
}
