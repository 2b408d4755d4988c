/** The lattice points a cube of side `size` materialises, in the order the
    constructor visits them: `i` outermost, then `j`, then `k`, skipping every point
    that is strictly inside the cube on all three axes. */
module Surface {

  /** A lattice point (i, j, k) of the cube. */
  datatype Cell = Cell(i: int, j: int, k: int)

  /** The loop's filter: a point is skipped when no coordinate is 0 or `size - 1`. */
  predicate Skipped(size: nat, c: Cell)
  {
    c.i != size - 1 && c.i != 0 && c.j != size - 1 && c.j != 0 && c.k != size - 1 && c.k != 0
  }

  /** Coordinate `x` lies on a face of the cube along its axis. */
  predicate OnBoundary(size: nat, x: int)
  {
    x == 0 || x == size - 1
  }

  predicate InCube(size: nat, c: Cell)
  {
    0 <= c.i < size && 0 <= c.j < size && 0 <= c.k < size
  }

  /** The reference notion of a surface point: some coordinate is on a face. */
  predicate OnSurface(size: nat, c: Cell)
  {
    OnBoundary(size, c.i) || OnBoundary(size, c.j) || OnBoundary(size, c.k)
  }

  // ---------------------------------------------------------------- visiting order

  /** A state of the three loop counters: the loops are about to visit (i, j, k), or
      have just finished a run of the inner loop (k == size) or of the middle loop
      (j == size, k == 0). */
  predicate Cursor(size: nat, i: nat, j: nat, k: nat)
  {
    j <= size && k <= size && (k > 0 ==> j < size)
  }

  /** The points the loops have visited before reaching cursor (i, j, k), in visiting order. */
  ghost function Prefix(size: nat, i: nat, j: nat, k: nat): seq<Cell>
    decreases i, j, k
  {
    if k > 0 then Prefix(size, i, j, k - 1) + [Cell(i, j, k - 1)]
    else if j > 0 then Prefix(size, i, j - 1, size)
    else if i > 0 then Prefix(size, i - 1, size, 0)
    else []
  }

  /** The points of `s` that the filter lets through, in the order of `s`. */
  ghost function Kept(size: nat, s: seq<Cell>): seq<Cell>
  {
    if s == [] then []
    else Kept(size, s[..|s| - 1]) + (if Skipped(size, s[|s| - 1]) then [] else [s[|s| - 1]])
  }

  /** Every point the constructor keeps, in visiting order. */
  ghost function SurfaceCells(size: nat): seq<Cell>
  {
    Kept(size, Prefix(size, size, 0, 0))
  }

  /** Lexicographic order on (i, j, k). */
  predicate Before(a: Cell, b: Cell)
  {
    a.i < b.i || (a.i == b.i && (a.j < b.j || (a.j == b.j && a.k < b.k)))
  }

  predicate StrictlyOrdered(s: seq<Cell>)
  {
    forall x, y :: 0 <= x < y < |s| ==> Before(s[x], s[y])
  }

  // ---------------------------------------------------------------- membership

  lemma InConcat(a: seq<Cell>, b: seq<Cell>, c: Cell)
    ensures c in a + b <==> c in a || c in b
  {
  }

  /** The loops visit every point of the lattice that comes before the cursor, and no other. */
  lemma {:induction false} PrefixMembers(size: nat, i: nat, j: nat, k: nat, c: Cell)
    requires Cursor(size, i, j, k)
    ensures c in Prefix(size, i, j, k) <==>
      0 <= c.i && 0 <= c.j < size && 0 <= c.k < size && Before(c, Cell(i, j, k))
    decreases i, j, k
  {
    if k > 0 {
      PrefixMembers(size, i, j, k - 1, c);
      InConcat(Prefix(size, i, j, k - 1), [Cell(i, j, k - 1)], c);
    } else if j > 0 {
      PrefixMembers(size, i, j - 1, size, c);
    } else if i > 0 {
      PrefixMembers(size, i - 1, size, 0, c);
    }
  }

  /** The filter keeps exactly the points of `s` that are not skipped. */
  lemma {:induction false} KeptMembers(size: nat, s: seq<Cell>, c: Cell)
    ensures c in Kept(size, s) <==> c in s && !Skipped(size, c)
  {
    if s != [] {
      var init, last := s[..|s| - 1], s[|s| - 1];
      assert s == init + [last];
      KeptMembers(size, init, c);
      InConcat(init, [last], c);
    }
  }

  /** A point is generated exactly when it is in the cube and on its surface:
      interior points never are, and no surface point is missed. */
  lemma SurfaceMembers(size: nat, c: Cell)
    ensures c in SurfaceCells(size) <==> InCube(size, c) && OnSurface(size, c)
  {
    KeptMembers(size, Prefix(size, size, 0, 0), c);
    PrefixMembers(size, size, 0, 0, c);
  }

  // ---------------------------------------------------------------- order

  lemma ConcatOrdered(a: seq<Cell>, b: seq<Cell>)
    requires StrictlyOrdered(a) && StrictlyOrdered(b)
    requires forall x, y :: 0 <= x < |a| && 0 <= y < |b| ==> Before(a[x], b[y])
    ensures StrictlyOrdered(a + b)
  {
    forall x, y | 0 <= x < y < |a + b|
      ensures Before((a + b)[x], (a + b)[y])
    {
      if y < |a| {
      } else if x < |a| {
        assert Before(a[x], b[y - |a|]);
      } else {
        assert Before(b[x - |a|], b[y - |a|]);
      }
    }
  }

  /** Each point is visited after every point visited before it. */
  lemma {:induction false} PrefixOrdered(size: nat, i: nat, j: nat, k: nat)
    requires Cursor(size, i, j, k)
    ensures StrictlyOrdered(Prefix(size, i, j, k))
    decreases i, j, k
  {
    if k > 0 {
      PrefixOrdered(size, i, j, k - 1);
      var a := Prefix(size, i, j, k - 1);
      forall x | 0 <= x < |a|
        ensures Before(a[x], Cell(i, j, k - 1))
      {
        PrefixMembers(size, i, j, k - 1, a[x]);
      }
      ConcatOrdered(a, [Cell(i, j, k - 1)]);
    } else if j > 0 {
      PrefixOrdered(size, i, j - 1, size);
    } else if i > 0 {
      PrefixOrdered(size, i - 1, size, 0);
    }
  }

  /** Filtering keeps the order of what it keeps. */
  lemma {:induction false} KeptOrdered(size: nat, s: seq<Cell>)
    requires StrictlyOrdered(s)
    ensures StrictlyOrdered(Kept(size, s))
  {
    if s != [] {
      var init, last := s[..|s| - 1], s[|s| - 1];
      KeptOrdered(size, init);
      var a := Kept(size, init);
      var b := if Skipped(size, last) then [] else [last];
      forall x, y | 0 <= x < |a| && 0 <= y < |b|
        ensures Before(a[x], b[y])
      {
        KeptMembers(size, init, a[x]);
        var z :| 0 <= z < |init| && init[z] == a[x];
        assert s[z] == a[x];
      }
      ConcatOrdered(a, b);
    }
  }

  /** The points come out in strictly increasing lexicographic (i, j, k) order,
      so no point is generated twice. */
  lemma SurfaceOrdered(size: nat)
    ensures StrictlyOrdered(SurfaceCells(size))
    ensures forall x, y :: 0 <= x < y < |SurfaceCells(size)| ==> SurfaceCells(size)[x] != SurfaceCells(size)[y]
  {
    PrefixOrdered(size, size, 0, 0);
    KeptOrdered(size, Prefix(size, size, 0, 0));
  }

  // ---------------------------------------------------------------- count

  /** How many of 0 .. n-1 are on a face of a cube of side `size` (for n <= size). */
  function EdgesBelow(size: nat, n: nat): (r: nat)
    requires n <= size
    ensures r <= n
  {
    (if n >= 1 then 1 else 0) + (if size >= 2 && n == size then 1 else 0)
  }

  /** The number of points kept on one row (i, j, _) with neither i nor j on a face. */
  function InnerRow(size: nat): nat
  {
    EdgesBelow(size, size)
  }

  /** The number of points kept on one slab (i, _, _) with i not on a face. */
  function InnerSlab(size: nat): nat
  {
    InnerRow(size) * size + (size - InnerRow(size)) * InnerRow(size)
  }

  /** Points kept among the first n of row (i, j, _). */
  function RowPart(size: nat, i: int, j: int, n: nat): nat
    requires n <= size
  {
    if OnBoundary(size, i) || OnBoundary(size, j) then n else EdgesBelow(size, n)
  }

  /** Points kept among the first m rows of slab (i, _, _). */
  function SlabPart(size: nat, i: int, m: nat): nat
    requires m <= size
  {
    if OnBoundary(size, i) then m * size
    else EdgesBelow(size, m) * size + (m - EdgesBelow(size, m)) * InnerRow(size)
  }

  /** Points kept among the first l slabs. */
  function BlockPart(size: nat, l: nat): nat
    requires l <= size
  {
    EdgesBelow(size, l) * (size * size) + (l - EdgesBelow(size, l)) * InnerSlab(size)
  }

  lemma RowPartStep(size: nat, i: int, j: int, n: nat)
    requires 0 < n <= size
    ensures RowPart(size, i, j, n) == RowPart(size, i, j, n - 1) + (if Skipped(size, Cell(i, j, n - 1)) then 0 else 1)
  {
  }

  lemma SlabPartStep(size: nat, i: int, m: nat)
    requires 0 < m <= size
    ensures SlabPart(size, i, m) == SlabPart(size, i, m - 1) + RowPart(size, i, m - 1, size)
  {
    if !OnBoundary(size, i) {
      var e, e' := EdgesBelow(size, m), EdgesBelow(size, m - 1);
      var r := InnerRow(size);
      if OnBoundary(size, m - 1) {
        assert e == e' + 1;
        assert e * size + (m - e) * r == e' * size + size + (m - 1 - e') * r;
      } else {
        assert e == e';
        assert e * size + (m - e) * r == e' * size + (m - 1 - e') * r + r;
      }
    }
  }

  lemma BlockPartStep(size: nat, l: nat)
    requires 0 < l <= size
    ensures BlockPart(size, l) == BlockPart(size, l - 1) + SlabPart(size, l - 1, size)
  {
    var e, e' := EdgesBelow(size, l), EdgesBelow(size, l - 1);
    var q := InnerSlab(size);
    if OnBoundary(size, l - 1) {
      assert e == e' + 1;
      assert e * (size * size) + (l - e) * q == e' * (size * size) + size * size + (l - 1 - e') * q;
    } else {
      assert e == e';
      assert SlabPart(size, l - 1, size) == q;
      assert e * (size * size) + (l - e) * q == e' * (size * size) + (l - 1 - e') * q + q;
    }
  }

  /** The number of points kept before cursor (i, j, k): the closed form at every loop state. */
  lemma {:induction false} PrefixCount(size: nat, i: nat, j: nat, k: nat)
    requires Cursor(size, i, j, k) && i <= size && (i == size ==> j == 0 && k == 0)
    ensures |Kept(size, Prefix(size, i, j, k))| == BlockPart(size, i) + SlabPart(size, i, j) + RowPart(size, i, j, k)
    decreases i, j, k
  {
    if k > 0 {
      PrefixCount(size, i, j, k - 1);
      var s := Prefix(size, i, j, k);
      assert s[..|s| - 1] == Prefix(size, i, j, k - 1);
      RowPartStep(size, i, j, k);
    } else if j > 0 {
      PrefixCount(size, i, j - 1, size);
      SlabPartStep(size, i, j);
    } else if i > 0 {
      PrefixCount(size, i - 1, size, 0);
      BlockPartStep(size, i);
    }
  }

  function Cubed(n: nat): nat { n * n * n }

  /** (t + 2)^3 - t^3, in the shape the per-slab count produces. */
  lemma ShellArithmetic(t: nat)
    ensures Cubed(t + 2) - Cubed(t) == 2 * ((t + 2) * (t + 2)) + t * (2 * (t + 2) + t * 2)
  {
    var s := t + 2;
    assert s * s == t * t + 4 * t + 4;
    assert s * s * s == (t * t + 4 * t + 4) * (t + 2);
    assert (t * t + 4 * t + 4) * (t + 2) == t * t * t + 6 * t * t + 12 * t + 8;
    assert t * (2 * s + t * 2) == 4 * t * t + 4 * t;
  }

  /** The closed form: all size^3 points minus the (size-2)^3 interior ones. */
  lemma SurfaceCount(size: nat)
    ensures |SurfaceCells(size)| == Cubed(size) - Cubed(if size >= 2 then size - 2 else 0)
  {
    PrefixCount(size, size, 0, 0);
    if size >= 2 {
      var t := size - 2;
      assert InnerRow(size) == 2;
      assert InnerSlab(size) == 2 * size + t * 2;
      assert BlockPart(size, size) == 2 * (size * size) + t * (2 * size + t * 2);
      ShellArithmetic(t);
    }
  }
}
