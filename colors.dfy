/**
 * System.Numerics.Vector4 colours, kept exact: a channel is either a byte
 * divided by 255 (what `b / 255f` computes) or one of the float literals
 * of the named-colour tables (0.647f, 0.502f), kept as an opaque value.
 */
module Colors {
  import opened DotNetText

  datatype Channel =
    | Over255(n: byte)       // n / 255f; Over255(0) is 0 and Over255(255) is 1
    | Thousandths(m: nat)    // the float literal m / 1000, as written in a colour table

  datatype Color = Color(r: Channel, g: Channel, b: Channel, a: Channel)

  const Zero: Channel := Over255(0)
  const One: Channel := Over255(255)

  /** default(Vector4): every component zero. */
  const ZeroVector: Color := Color(Zero, Zero, Zero, Zero)

  /** new Vector4(r / 255f, g / 255f, b / 255f, 1). */
  function Opaque(r: byte, g: byte, b: byte): Color {
    Color(Over255(r), Over255(g), Over255(b), One)
  }

  /** A '#' colour string the hex path rejects: the hex does not parse, or it gives fewer than three bytes. */
  predicate BadHash(c: string) {
    |c| > 0 && c[0] == '#' && (FromHexString(c[1..]).Failure? || |c| < 7)
  }
}
