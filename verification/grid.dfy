/**
  The grid of dots: a width by height array of nodes numbered row by row,
  so that node `id` sits at column `id % width` of row `id / width`.
 */
module Grid {

  import opened Arith

  /** A grid of `width` columns and `height` rows. */
  datatype Grid = Grid(width: nat, height: nat)

  /** A position on the plane: `x` is the column, `y` the row. */
  datatype Point = Point(x: int, y: int)

  function NodeCount(g: Grid): (n: nat)
  {
    g.width * g.height
  }

  predicate InBounds(g: Grid, p: Point)
  {
    0 <= p.x < g.width && 0 <= p.y < g.height
  }

  /** The position of a node: column `id % width`, row `id / width`. */
  function Coord(g: Grid, id: nat): (p: Point)
    requires id < NodeCount(g)
    ensures InBounds(g, p)
  {
    RowBound(g, id);
    Point(id % g.width, id / g.width)
  }

  /** The node at a position: row-major numbering, as the scan over rows and
      columns assigns ids. */
  function IdOf(g: Grid, p: Point): (id: nat)
    requires InBounds(g, p)
    ensures id < NodeCount(g)
  {
    RowMajorBound(g, p);
    p.y * g.width + p.x
  }

  lemma RowBound(g: Grid, id: nat)
    requires id < NodeCount(g)
    ensures g.width > 0 && id / g.width < g.height
  {
    var q := id / g.width;
    assert id == g.width * q + id % g.width;
    MulSign(g.width, q - g.height + 1);
  }

  lemma RowMajorBound(g: Grid, p: Point)
    requires InBounds(g, p)
    ensures p.y * g.width + p.x < NodeCount(g)
  {
    MulSign(g.width, g.height - 1 - p.y);
    assert g.width * (g.height - 1 - p.y) == NodeCount(g) - g.width - p.y * g.width;
  }

  /** Numbering a position and decoding the number gives the position back. */
  lemma CoordOfIdOf(g: Grid, p: Point)
    requires InBounds(g, p)
    ensures Coord(g, IdOf(g, p)) == p
  {
    DivModUnique(p.y * g.width + p.x, g.width, p.y, p.x);
  }

  /** Decoding a node and numbering the position gives the node back. */
  lemma IdOfCoord(g: Grid, id: nat)
    requires id < NodeCount(g)
    ensures IdOf(g, Coord(g, id)) == id
  {
    RowBound(g, id);
    assert id == g.width * (id / g.width) + id % g.width;
  }

  /** Distinct nodes sit at distinct positions. */
  lemma CoordInjective(g: Grid, a: nat, b: nat)
    requires a < NodeCount(g) && b < NodeCount(g)
    ensures Coord(g, a) == Coord(g, b) <==> a == b
  {
    IdOfCoord(g, a);
    IdOfCoord(g, b);
  }

  /** No node occurs twice in the path `p`. */
  predicate Distinct(p: seq<nat>)
  {
    forall i, j :: 0 <= i < j < |p| ==> p[i] != p[j]
  }

  // ---------------------------------------------------------------------------
  // The decoding of the current node as the enumerator writes it

  /** The enumerator decodes its current node with the HEIGHT as row stride:
      row `id / height`, column `id - row * height`, while its scan numbers the
      nodes with the width as stride. */
  function SourceCoord(g: Grid, id: nat): (p: Point)
    requires id < NodeCount(g)
    ensures 0 <= p.x < g.height && p.y * g.height + p.x == id
  {
    var row := id / g.height;
    assert id == g.height * row + id % g.height;
    Point(id - row * g.height, row)
  }

  /** On square grids the two decodings agree. */
  lemma SourceCoordSquare(g: Grid, id: nat)
    requires id < NodeCount(g) && g.width == g.height
    ensures SourceCoord(g, id) == Coord(g, id)
  {
    RowBound(g, id);
    assert id == g.width * (id / g.width) + id % g.width;
  }

  /** On a 3-wide, 2-tall grid node 2 is at (2, 0), but the enumerator's
      decoding puts it at (0, 1), the position of node 3. */
  lemma SourceCoordWrongOnWideGrid()
    ensures SourceCoord(Grid(3, 2), 2) == Point(0, 1) == Coord(Grid(3, 2), 3)
    ensures Coord(Grid(3, 2), 2) == Point(2, 0)
  {
  }
}
