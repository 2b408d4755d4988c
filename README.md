# Rubik cube surface pieces — a Dafny model

This project models the core of a small OpenGL Rubik's-cube viewer. When a `Cube`
of side `size` is constructed, it walks every lattice point `(i, j, k)` of the
`size × size × size` block. The walk is `i` outermost, then `j`, then `k`. Points strictly
inside the block on all three axes are skipped. For every other point the constructor
appends one `Piece` to its `pieces` list. Each piece gets:

- its position, centred on the origin: `i - (size - 1) / 2` and likewise for `j` and `k`;
- a white colour;
- the scale `1.5 / size`.

- `piece.dfy` (module `Pieces`) holds the piece record and its value types. Positions
  are stored in doubled integer coordinates (`2i - (size - 1)`), so half-unit offsets
  stay exact. The scale is kept as the exact fraction `3 / (2·size)`.
- `surface.dfy` (module `Surface`) enumerates the visited lattice points in visiting
  order, filters out the skipped ones, and proves three things about the resulting
  sequence: its membership, its strict lexicographic order, and its length.
- `cube.dfy` (module `Cubes`) holds the class `Cube` with fields `size` and `pieces`.
  Its constructor runs the three nested loops with the same `continue` test and appends
  to `pieces`. Loop invariants tie `pieces` to a function of the loop cursor. The
  constructor's postcondition is `pieces == Built(size)`, and the properties of the
  constructed cube are proved as lemmas about `Built`.

## Model

| member | source | states |
|---|---|---|
| Cubes.Cube.constructor | src/Cube.cpp:3-25 | The size argument defaults to `DefaultSize` = 3 (include/cube.hpp:7,13); the stored size is the argument unchanged; `pieces` starts empty and ends as exactly `Built(size)`, i.e. one piece per non-skipped lattice point in `i`, `j`, `k` loop order (loop invariants tie the list to the cursor) |
| Cubes.CollectedPrefix | src/Cube.cpp:7-21 | What the loops have appended at any cursor equals the pieces of the kept points among all points visited so far |
| Cubes.VisitStep | src/Cube.cpp:11-21 | Visiting one more point appends nothing if it is strictly interior and exactly its piece otherwise |
| Cubes.PiecesOfAt | src/Cube.cpp:17-21 | Converting points to pieces keeps the length and maps the n-th point to the n-th piece |
| Surface.SurfaceMembers | src/Cube.cpp:7-15 | A point is kept iff it lies in the block and has some coordinate equal to 0 or size - 1 (the complement of the strictly interior points) |
| Surface.SurfaceOrdered | src/Cube.cpp:7-11 | The kept points are strictly increasing in lexicographic (i, j, k) order, hence pairwise distinct |
| Surface.PrefixCount | src/Cube.cpp:7-15 | The number of kept points among those visited before any cursor equals the sum of the per-slab, per-row and per-point contributions |
| Surface.SurfaceCount | src/Cube.cpp:7-15 | The number of kept points is size³ − max(size − 2, 0)³ |
| Cubes.BuiltCount | src/Cube.cpp:7-21 | A constructed cube holds size³ − max(size − 2, 0)³ pieces (0 for size 0, 1 for size 1) |
| Cubes.DefaultCubeCount | include/cube.hpp:7-13 | A cube built with the default size `DefaultSize` = 3 holds 26 pieces |
| Cubes.BuiltAt | src/Cube.cpp:7-21 | The n-th piece is the piece of the n-th kept point |
| Cubes.PieceAtInjective | src/Cube.cpp:18 | The lattice point can be recovered from a piece's position, so distinct points give distinct positions |
| Cubes.BuiltMembers | src/Cube.cpp:13-21 | The piece of a point is in the cube iff the point lies in the block and on its surface |
| Cubes.BuiltOrdered | src/Cube.cpp:7-21 | Piece positions are strictly increasing in lexicographic (x, y, z) order and pairwise distinct |
| Cubes.BuiltFrom | src/Cube.cpp:13-21 | Every piece in the cube is the piece of a surface point of the block |
| Cubes.BuiltOnFaces | src/Cube.cpp:13-18 | Every piece has some doubled coordinate equal to ±(size − 1): it lies on an outer face |
| Cubes.BuiltBounds | src/Cube.cpp:5-18 | Every doubled coordinate lies in [−(size − 1), size − 1]; its parity is opposite to size's (even for odd size, odd for even size) |
| Cubes.BuiltSymmetric | src/Cube.cpp:5-18 | For every piece there is a piece at the negated position: the layout is symmetric about the origin |
| Cubes.BuiltUniform | src/Cube.cpp:17-20 | Every piece is white and has the same scale 3 / (2·size) |
| Cubes.ScaleValue | src/Cube.cpp:17 | For a positive size the exact scale fraction equals 1.5 / size |
| Cubes.PositionCentred | src/Cube.cpp:5-18 | Halving a piece's doubled position gives the lattice point minus the offset (size − 1) / 2 on each axis |

## Left out

- `Piece::draw` and `Cube::draw`, shaders, the vertex tables, the gradient background, the window, the main loop and the settings struct are rendering and I/O. None of them changes the piece list.
- Single-precision floating point: the offset `(size - 1) / 2.0f`, the position `i - offset` and the scale `1.5f / size` are modelled exactly, positions as doubled integers and the scale as the exact fraction 3/(2·size). In `float`, positions are exact up to sizes of about 2²⁴. The scale `1.5f / size` is already rounded for most sizes: every size that is not 2ᵃ or 3·2ᵃ (for example 5 or 7). For size 5, `float` stores the value nearest 0.3, not 3/10 itself. No property of the model depends on the scale's float value.
- Cubes.Cube.constructor: the loop counters are C++ `int` compared with an `unsigned int` size. For sizes above 2³¹ − 1 the counters would overflow, and this is not modelled; the model's counters are unbounded.
- For size 0, `size - 1` wraps around in unsigned arithmetic. No loop iteration runs, so it has no effect, and the model simply builds an empty list. Sizes 0 and 1 are accepted, as in the code. No file of the modelled program (src/Main.cpp included) constructs a `Cube`; the only sizes the program names are `DEFAULT_SIZE` = 3 (include/cube.hpp:7,13) and `SETTINGS::cubeSize` = 3 (include/settings.hpp:6).
- The header `include/piece.hpp` declares a two-argument `Piece` constructor and no `scale` field. The model follows the three-argument constructor in `src/Piece.cpp:35`.
- The piece's colour is modelled as an exact real triple `(1, 1, 1)`, not as 32-bit floats.
- Layer turns, scrambling and any other change to a constructed cube are not part of this model, because no such operation exists in the modelled source.
