/** One cubelet of the cube: the record a `Piece` stores (position, colour, scale).
    Positions are kept in DOUBLED coordinates, so that the half-integer centres of an
    even-sized cube stay in the integers; the scale is kept as an exact fraction. */
module Pieces {

  /** A vector of integers: a piece position measured in half units. */
  datatype Vec3 = Vec3(x: int, y: int, z: int)
  {
    function Neg(): Vec3 { Vec3(-x, -y, -z) }
  }

  /** An RGB colour with components in [0, 1]. */
  datatype Rgb = Rgb(r: real, g: real, b: real)

  /** The colour every piece is created with: full white. */
  const White: Rgb := Rgb(1.0, 1.0, 1.0)

  /** The exact rational number num / den. */
  datatype Fraction = Fraction(num: int, den: int)

  /** A cubelet: its (doubled) position, its colour and its uniform scale. */
  datatype Piece = Piece(pos: Vec3, color: Rgb, scale: Fraction)

  /** The position a piece is drawn at, in the cube's own units (half of `pos`). */
  function Position(p: Piece): (real, real, real)
  {
    (p.pos.x as real / 2.0, p.pos.y as real / 2.0, p.pos.z as real / 2.0)
  }
}
