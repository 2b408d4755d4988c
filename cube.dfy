/** The cube aggregate: a side length and the list of surface pieces its
    constructor builds, one per surface lattice point, in visiting order. */
module Cubes {
  import opened Pieces
  import opened Surface

  /** The range of a C++ `unsigned int`. */
  type U32 = x: int | 0 <= x < 0x1_0000_0000

  /** The side length a cube gets when it is constructed without an argument. */
  const DefaultSize: U32 := 3

  /** Twice `x - (size - 1) / 2`: lattice coordinate `x` centred on the origin, in half units. */
  function Doubled(size: nat, x: int): int
  {
    2 * x - (size - 1)
  }

  /** The scale every piece of a cube of side `size` gets: 1.5 / size, i.e. 3 / (2 * size). */
  function ScaleOf(size: nat): Fraction
  {
    Fraction(3, 2 * size)
  }

  /** The piece created for lattice point `c`. */
  function PieceAt(size: nat, c: Cell): Piece
  {
    Piece(Vec3(Doubled(size, c.i), Doubled(size, c.j), Doubled(size, c.k)), White, ScaleOf(size))
  }

  /** One piece per point of `cells`, in the same order. */
  ghost function PiecesOf(size: nat, cells: seq<Cell>): seq<Piece>
  {
    if cells == [] then []
    else PiecesOf(size, cells[..|cells| - 1]) + [PieceAt(size, cells[|cells| - 1])]
  }

  /** The pieces a cube of side `size` holds once constructed. */
  ghost function Built(size: nat): seq<Piece>
  {
    PiecesOf(size, SurfaceCells(size))
  }

  /** What the constructor's loops have appended when they reach cursor (i, j, k):
      one piece per visited point that is not skipped. */
  ghost function Collected(size: nat, i: nat, j: nat, k: nat): seq<Piece>
    decreases i, j, k
  {
    if k > 0 then
      Collected(size, i, j, k - 1) + (if Skipped(size, Cell(i, j, k - 1)) then [] else [PieceAt(size, Cell(i, j, k - 1))])
    else if j > 0 then Collected(size, i, j - 1, size)
    else if i > 0 then Collected(size, i - 1, size, 0)
    else []
  }

  class Cube {
    var size: U32
    var pieces: seq<Piece>

    /** Walks every lattice point with `i` outermost, skips the strictly interior
        ones, and appends one white piece per remaining point. */
    constructor (size: U32 := DefaultSize)
      ensures this.size == size
      ensures pieces == Built(size)
    {
      this.size := size;
      pieces := [];
      new;
      for i := 0 to size
        invariant this.size == size
        invariant pieces == Collected(size, i, 0, 0)
      {
        for j := 0 to size
          invariant this.size == size
          invariant pieces == Collected(size, i, j, 0)
        {
          for k := 0 to size
            invariant this.size == size
            invariant pieces == Collected(size, i, j, k)
          {
            if i != size - 1 && i != 0 && j != size - 1 && j != 0 && k != size - 1 && k != 0 {
              continue;
            }
            var scale := Fraction(3, 2 * size);
            var pos := Vec3(2 * i - (size - 1), 2 * j - (size - 1), 2 * k - (size - 1));
            var piece := Piece(pos, White, scale);
            pieces := pieces + [piece];
          }
        }
      }
      CollectedIsBuilt(size);
    }
  }

  // ---------------------------------------------------------------- helpers

  /** The loop state at cursor (i, j, k) is the piece list of the points visited and kept so far. */
  lemma {:induction false} CollectedPrefix(size: nat, i: nat, j: nat, k: nat)
    ensures Collected(size, i, j, k) == PiecesOf(size, Kept(size, Prefix(size, i, j, k)))
    decreases i, j, k
  {
    if k > 0 {
      CollectedPrefix(size, i, j, k - 1);
      VisitStep(size, i, j, k - 1);
    } else if j > 0 {
      CollectedPrefix(size, i, j - 1, size);
      assert Prefix(size, i, j, k) == Prefix(size, i, j - 1, size);
    } else if i > 0 {
      CollectedPrefix(size, i - 1, size, 0);
      assert Prefix(size, i, j, k) == Prefix(size, i - 1, size, 0);
    }
  }

  lemma CollectedIsBuilt(size: nat)
    ensures Collected(size, size, 0, 0) == Built(size)
  {
    CollectedPrefix(size, size, 0, 0);
  }

  /** Visiting (i, j, k) appends its piece to the kept list unless it is skipped. */
  lemma VisitStep(size: nat, i: nat, j: nat, k: nat)
    ensures PiecesOf(size, Kept(size, Prefix(size, i, j, k + 1))) ==
      PiecesOf(size, Kept(size, Prefix(size, i, j, k))) +
      (if Skipped(size, Cell(i, j, k)) then [] else [PieceAt(size, Cell(i, j, k))])
  {
    var s, c := Prefix(size, i, j, k), Cell(i, j, k);
    assert Prefix(size, i, j, k + 1) == s + [c];
    KeptSnoc(size, s, c);
    if Skipped(size, c) {
      assert Kept(size, s) + [] == Kept(size, s);
      assert PiecesOf(size, Kept(size, s)) + [] == PiecesOf(size, Kept(size, s));
    } else {
      PiecesOfSnoc(size, Kept(size, s), c);
    }
  }

  lemma KeptSnoc(size: nat, s: seq<Cell>, c: Cell)
    ensures Kept(size, s + [c]) == Kept(size, s) + (if Skipped(size, c) then [] else [c])
  {
    assert (s + [c])[..|s|] == s;
  }

  lemma PiecesOfSnoc(size: nat, cells: seq<Cell>, c: Cell)
    ensures PiecesOf(size, cells + [c]) == PiecesOf(size, cells) + [PieceAt(size, c)]
  {
    assert (cells + [c])[..|cells|] == cells;
  }

  /** `PiecesOf` builds exactly one piece per point, position by position. */
  lemma {:induction false} PiecesOfAt(size: nat, cells: seq<Cell>)
    ensures |PiecesOf(size, cells)| == |cells|
    ensures forall n :: 0 <= n < |cells| ==> PiecesOf(size, cells)[n] == PieceAt(size, cells[n])
  {
    if cells != [] {
      PiecesOfAt(size, cells[..|cells| - 1]);
    }
  }

  // ---------------------------------------------------------------- properties of the built cube

  /** Lexicographic order on positions. */
  predicate PosBefore(a: Vec3, b: Vec3)
  {
    a.x < b.x || (a.x == b.x && (a.y < b.y || (a.y == b.y && a.z < b.z)))
  }

  /** One extreme of an axis in doubled coordinates: the centre of a face layer. */
  predicate OnFace(size: nat, d: int)
  {
    d == size - 1 || d == -(size - 1)
  }

  /** The lattice point a doubled position came from. */
  function CellOf(size: nat, v: Vec3): Cell
  {
    Cell((v.x + size - 1) / 2, (v.y + size - 1) / 2, (v.z + size - 1) / 2)
  }

  /** The piece at index n is built for the n-th surface point. */
  lemma BuiltAt(size: nat, n: nat)
    requires n < |SurfaceCells(size)|
    ensures |Built(size)| == |SurfaceCells(size)|
    ensures Built(size)[n] == PieceAt(size, SurfaceCells(size)[n])
  {
    PiecesOfAt(size, SurfaceCells(size));
  }

  /** The closed-form piece count: size^3 - max(size - 2, 0)^3 (0, 1, 8, 26, 56, ...). */
  lemma BuiltCount(size: nat)
    ensures |Built(size)| == Cubed(size) - Cubed(if size >= 2 then size - 2 else 0)
  {
    PiecesOfAt(size, SurfaceCells(size));
    SurfaceCount(size);
  }

  /** A cube built with the default side length has 26 pieces. */
  lemma DefaultCubeCount(size: nat)
    requires size == DefaultSize
    ensures |Built(size)| == 26
  {
    BuiltCount(size);
  }

  /** The position of a piece determines its lattice point, so distinct points give distinct pieces. */
  lemma PieceAtInjective(size: nat, c: Cell)
    ensures CellOf(size, PieceAt(size, c).pos) == c
  {
  }

  /** Every lattice point on the surface gets a piece, and no other lattice point does. */
  lemma BuiltMembers(size: nat, c: Cell)
    ensures PieceAt(size, c) in Built(size) <==> InCube(size, c) && OnSurface(size, c)
  {
    PiecesOfAt(size, SurfaceCells(size));
    SurfaceMembers(size, c);
    if PieceAt(size, c) in Built(size) {
      var n :| 0 <= n < |Built(size)| && Built(size)[n] == PieceAt(size, c);
      PieceAtInjective(size, c);
      PieceAtInjective(size, SurfaceCells(size)[n]);
      assert SurfaceCells(size)[n] == c;
    }
    if InCube(size, c) && OnSurface(size, c) {
      var n :| 0 <= n < |SurfaceCells(size)| && SurfaceCells(size)[n] == c;
      assert Built(size)[n] == PieceAt(size, c);
    }
  }

  /** Pieces are stored in strictly increasing (x, y, z) position order, so no two
      share a position. */
  lemma BuiltOrdered(size: nat)
    ensures forall m, n :: 0 <= m < n < |Built(size)| ==> PosBefore(Built(size)[m].pos, Built(size)[n].pos)
    ensures forall m, n :: 0 <= m < n < |Built(size)| ==> Built(size)[m].pos != Built(size)[n].pos
  {
    PiecesOfAt(size, SurfaceCells(size));
    SurfaceOrdered(size);
    forall m, n | 0 <= m < n < |Built(size)|
      ensures PosBefore(Built(size)[m].pos, Built(size)[n].pos)
    {
      assert Before(SurfaceCells(size)[m], SurfaceCells(size)[n]);
    }
  }

  /** Every stored piece is the piece of a surface lattice point, recovered from its position. */
  lemma BuiltFrom(size: nat, p: Piece)
    requires p in Built(size)
    ensures InCube(size, CellOf(size, p.pos)) && OnSurface(size, CellOf(size, p.pos))
    ensures p == PieceAt(size, CellOf(size, p.pos))
  {
    PiecesOfAt(size, SurfaceCells(size));
    var n :| 0 <= n < |Built(size)| && Built(size)[n] == p;
    var c := SurfaceCells(size)[n];
    assert p == PieceAt(size, c);
    SurfaceMembers(size, c);
    PieceAtInjective(size, c);
  }

  /** Each piece lies on a face of the cube: some coordinate is at an extreme. */
  lemma BuiltOnFaces(size: nat, p: Piece)
    requires p in Built(size)
    ensures OnFace(size, p.pos.x) || OnFace(size, p.pos.y) || OnFace(size, p.pos.z)
  {
    BuiltFrom(size, p);
  }

  /** Doubled coordinates lie in [-(size - 1), size - 1] and have the parity opposite to
      `size`: whole numbers for an odd side, halves for an even side. */
  lemma BuiltBounds(size: nat, p: Piece)
    requires p in Built(size)
    ensures -(size - 1) <= p.pos.x <= size - 1 && -(size - 1) <= p.pos.y <= size - 1 && -(size - 1) <= p.pos.z <= size - 1
    ensures (p.pos.x + size) % 2 == 1 && (p.pos.y + size) % 2 == 1 && (p.pos.z + size) % 2 == 1
  {
    BuiltFrom(size, p);
    var c := CellOf(size, p.pos);
    assert p.pos.x + size == 2 * c.i + 1 && p.pos.y + size == 2 * c.j + 1 && p.pos.z + size == 2 * c.k + 1;
  }

  /** The set of positions is symmetric about the origin: the mirror image of every
      piece's position is the position of a piece. */
  lemma BuiltSymmetric(size: nat, p: Piece)
    requires p in Built(size)
    ensures exists q :: q in Built(size) && q.pos == p.pos.Neg()
  {
    BuiltFrom(size, p);
    var c := CellOf(size, p.pos);
    var mirror := Cell(size - 1 - c.i, size - 1 - c.j, size - 1 - c.k);
    BuiltMembers(size, mirror);
    assert PieceAt(size, mirror).pos == p.pos.Neg();
  }

  /** Every piece is white and carries the same scale 1.5 / size. */
  lemma BuiltUniform(size: nat)
    ensures forall p :: p in Built(size) ==> p.color == White && p.scale == ScaleOf(size)
  {
    PiecesOfAt(size, SurfaceCells(size));
    forall p | p in Built(size)
      ensures p.color == White && p.scale == ScaleOf(size)
    {
      var n :| 0 <= n < |Built(size)| && Built(size)[n] == p;
      assert p == PieceAt(size, SurfaceCells(size)[n]);
    }
  }

  /** The drawn position is the lattice point minus the centring offset (size - 1) / 2. */
  lemma PositionCentred(size: nat, c: Cell)
    ensures var offset := (size as real - 1.0) / 2.0;
      Position(PieceAt(size, c)) == (c.i as real - offset, c.j as real - offset, c.k as real - offset)
  {
  }

  /** The exact scale fraction equals 1.5 / size whenever the size is positive. */
  lemma ScaleValue(size: nat)
    requires size > 0
    ensures ScaleOf(size).den > 0
    ensures ScaleOf(size).num as real / ScaleOf(size).den as real == 1.5 / size as real
  {
    var d := size as real;
    assert 3.0 / (2.0 * d) == 1.5 / d;
  }
}
