/**
 * Tile addressing of the sweeper board: cells live in fixed arrays indexed
 * row-major (`y * width + x`), and every cell has up to eight Moore
 * neighbours inside the board.
 */
module Grid {
  import opened Wrappers

  /** Capacity of the board's cell arrays: enough for a 15 x 15 board. */
  const Capacity: nat := 225

  /** Dimensions the engine can hold: at least one column and one row, at most Capacity cells. */
  predicate ValidDimensions(width: nat, height: nat) {
    1 <= width && 1 <= height && width * height <= Capacity
  }

  /** The cell indices below `n`. */
  function Cells(n: nat): (c: set<nat>)
    ensures forall i: nat :: i in c <==> i < n
  {
    if n == 0 then {} else Cells(n - 1) + {n - 1}
  }

  /** The indices listed in `s`. */
  function Members(s: seq<nat>): (m: set<nat>)
    ensures forall x :: x in m <==> x in s
  {
    set x | x in s
  }

  /** Column and row of cell `i` (`index_to_coordinates`). */
  function IndexToCoordinates(width: nat, i: nat): (c: (nat, nat))
    requires 1 <= width
    ensures c.0 < width && c.1 * width + c.0 == i
  {
    (i % width, i / width)
  }

  /** Index of the tile at column `x`, row `y` (`coordinates_to_index`); a column past the last one maps to 0. */
  function CoordinatesToIndex(width: nat, x: nat, y: nat): (i: nat)
    requires 1 <= width
    ensures x >= width ==> i == 0
  {
    if x > width - 1 then 0 else y * width + x
  }

  /** Division by the width recovers row and column of a row-major index. */
  lemma RowMajorDivMod(width: nat, x: nat, y: nat)
    requires x < width
    ensures (y * width + x) / width == y && (y * width + x) % width == x
  {
    var i := y * width + x;
    var q, r := i / width, i % width;
    assert q * width + r == y * width + x;
    if q > y {
      assert q * width >= (y + 1) * width by { MulMonotone(y + 1, q, width); }
      assert false;
    } else if q < y {
      assert (q + 1) * width <= y * width by { MulMonotone(q + 1, y, width); }
      assert false;
    }
  }

  lemma MulMonotone(a: nat, b: nat, c: nat)
    requires a <= b
    ensures a * c <= b * c
  {
  }

  /** A tile inside the board has an index inside the board. */
  lemma CoordinatesInBoard(width: nat, height: nat, x: nat, y: nat)
    requires x < width && y < height
    ensures y * width + x < width * height
  {
    MulMonotone(y + 1, height, width);
  }

  /** An index inside the board names a row inside the board. */
  lemma RowInBoard(width: nat, height: nat, i: nat)
    requires 1 <= width && i < width * height
    ensures IndexToCoordinates(width, i).1 < height
  {
    var (x, y) := IndexToCoordinates(width, i);
    if y >= height {
      MulMonotone(height, y, width);
      assert false;
    }
  }

  /** Round trip from index to coordinates and back. */
  lemma IndexRoundTrip(width: nat, i: nat)
    requires 1 <= width
    ensures CoordinatesToIndex(width, IndexToCoordinates(width, i).0, IndexToCoordinates(width, i).1) == i
  {
  }

  /** Round trip from in-row coordinates to index and back. */
  lemma CoordinatesRoundTrip(width: nat, x: nat, y: nat)
    requires x < width
    ensures IndexToCoordinates(width, CoordinatesToIndex(width, x, y)) == (x, y)
  {
    RowMajorDivMod(width, x, y);
  }

  /**
   * The tile hit by a release can lie one column or one row past the board:
   * the pixel test that guards the mapping includes the board's right and
   * bottom edges. As written, column `width` then maps to tile 0 and row
   * `height` to an index past the board, on a 15 x 15 board past the arrays.
   */
  lemma EdgeReleaseMisses()
    ensures CoordinatesToIndex(10, 10, 3) == 0
    ensures CoordinatesToIndex(10, 3, 10) == 103 && 103 >= 10 * 10
    ensures CoordinatesToIndex(15, 14, 15) == 239 && 239 >= Capacity
  {
  }

  /**
   * The tile index of column `x`, row `y`, or none when the tile is off the
   * board: the mapping the edge test evidently intends.
   */
  function TileIndex(width: nat, height: nat, x: nat, y: nat): (r: Option<nat>)
    requires ValidDimensions(width, height)
    ensures r.Some? <==> x < width && y < height
    ensures r.Some? ==> r.value < width * height && IndexToCoordinates(width, r.value) == (x, y)
  {
    if x < width && y < height then
      CoordinatesInBoard(width, height, x, y);
      CoordinatesRoundTrip(width, x, y);
      Some(CoordinatesToIndex(width, x, y))
    else None
  }

  /** Every tile of the board has an index, and that index maps back to it. */
  lemma TileIndexCoversBoard(width: nat, height: nat, i: nat)
    requires ValidDimensions(width, height) && i < width * height
    ensures var (x, y) := IndexToCoordinates(width, i); TileIndex(width, height, x, y) == Some(i)
  {
    RowInBoard(width, height, i);
  }

  /** Moore adjacency, stated on coordinates: a different tile at most one column and one row away. */
  predicate Adjacent(width: nat, i: nat, n: nat)
    requires 1 <= width
  {
    var (ix, iy) := IndexToCoordinates(width, i);
    var (nx, ny) := IndexToCoordinates(width, n);
    i != n && ix <= nx + 1 && nx <= ix + 1 && iy <= ny + 1 && ny <= iy + 1
  }

  /** The tile at offset (dx, dy) from (x, y) when the offset stays on the board: one index or none. */
  function Offset(width: nat, height: nat, x: nat, y: nat, dx: int, dy: int): (s: seq<nat>)
    requires 1 <= width
    ensures forall n :: n in s ==> n < width * height
  {
    if 0 <= x + dx < width && 0 <= y + dy < height then
      CoordinatesInBoard(width, height, x + dx, y + dy);
      [CoordinatesToIndex(width, x + dx, y + dy)]
    else []
  }

  /** The eight neighbour directions, in the order the engine visits them: NW, N, NE, E, SE, S, SW, W. */
  const Directions: seq<(int, int)> := [(-1, -1), (0, -1), (1, -1), (1, 0), (1, 1), (0, 1), (-1, 1), (-1, 0)]

  /** The tiles at the offsets `dirs` from (x, y) that stay on the board, in the order of `dirs`. */
  function Reach(width: nat, height: nat, x: nat, y: nat, dirs: seq<(int, int)>): (s: seq<nat>)
    requires 1 <= width
    ensures forall n :: n in s ==> n < width * height
  {
    if dirs == [] then []
    else
      var (dx, dy) := dirs[|dirs| - 1];
      Reach(width, height, x, y, dirs[..|dirs| - 1]) + Offset(width, height, x, y, dx, dy)
  }

  /** The in-bounds Moore neighbours of cell `i`, in visiting order. */
  function Neighbours(width: nat, height: nat, i: nat): (ns: seq<nat>)
    requires ValidDimensions(width, height) && i < width * height
    ensures forall n :: n in ns ==> n < width * height
    ensures forall k :: 0 <= k < |ns| ==> ns[k] < width * height
  {
    var (x, y) := IndexToCoordinates(width, i);
    var r := Reach(width, height, x, y, Directions);
    assert forall k :: 0 <= k < |r| ==> r[k] in r;
    r
  }

  /** The neighbour list written out direction by direction. */
  lemma NeighboursUnrolled(width: nat, height: nat, i: nat)
    requires ValidDimensions(width, height) && i < width * height
    ensures var (x, y) := IndexToCoordinates(width, i);
      Neighbours(width, height, i)
      == Offset(width, height, x, y, -1, -1) + Offset(width, height, x, y, 0, -1)
       + Offset(width, height, x, y, 1, -1) + Offset(width, height, x, y, 1, 0)
       + Offset(width, height, x, y, 1, 1) + Offset(width, height, x, y, 0, 1)
       + Offset(width, height, x, y, -1, 1) + Offset(width, height, x, y, -1, 0)
  {
    var (x, y) := IndexToCoordinates(width, i);
    var d := Directions;
    assert d[..8] == d && d[..8][..7] == d[..7] && d[..7][..6] == d[..6] && d[..6][..5] == d[..5];
    assert d[..5][..4] == d[..4] && d[..4][..3] == d[..3] && d[..3][..2] == d[..2] && d[..2][..1] == d[..1];
    assert d[..1][..0] == [];
    assert Reach(width, height, x, y, d[..1]) == Offset(width, height, x, y, -1, -1);
    assert Reach(width, height, x, y, d[..2]) == Reach(width, height, x, y, d[..1]) + Offset(width, height, x, y, 0, -1);
    assert Reach(width, height, x, y, d[..3]) == Reach(width, height, x, y, d[..2]) + Offset(width, height, x, y, 1, -1);
    assert Reach(width, height, x, y, d[..4]) == Reach(width, height, x, y, d[..3]) + Offset(width, height, x, y, 1, 0);
    assert Reach(width, height, x, y, d[..5]) == Reach(width, height, x, y, d[..4]) + Offset(width, height, x, y, 1, 1);
    assert Reach(width, height, x, y, d[..6]) == Reach(width, height, x, y, d[..5]) + Offset(width, height, x, y, 0, 1);
    assert Reach(width, height, x, y, d[..7]) == Reach(width, height, x, y, d[..6]) + Offset(width, height, x, y, -1, 1);
    assert Reach(width, height, x, y, d[..8]) == Reach(width, height, x, y, d[..7]) + Offset(width, height, x, y, -1, 0);
  }

  /** Number of columns (or rows) within one step of `x` on a line of `width` tiles. */
  function Span(x: nat, width: nat): nat {
    1 + (if x > 0 then 1 else 0) + (if x + 1 < width then 1 else 0)
  }

  /** What an offset tile is: its coordinates are the offset ones, and it lies on the board. */
  lemma OffsetMember(width: nat, height: nat, x: nat, y: nat, dx: int, dy: int, n: nat)
    requires x < width && y < height
    requires n in Offset(width, height, x, y, dx, dy)
    ensures IndexToCoordinates(width, n) == (x + dx, y + dy) && n < width * height
  {
    CoordinatesRoundTrip(width, x + dx, y + dy);
    CoordinatesInBoard(width, height, x + dx, y + dy);
  }

  predicate Distinct(s: seq<nat>) {
    forall a, b :: 0 <= a < b < |s| ==> s[a] != s[b]
  }

  lemma DistinctAppend(s: seq<nat>, t: seq<nat>)
    requires Distinct(s) && |t| <= 1 && forall n :: n in t ==> n !in s
    ensures Distinct(s + t)
  {
    if |t| == 1 {
      forall a, b | 0 <= a < b < |s + t|
        ensures (s + t)[a] != (s + t)[b]
      {
        if b == |s| {
          assert (s + t)[a] == s[a] && s[a] in s;
          assert (s + t)[b] == t[0] && t[0] in t;
        }
      }
    }
  }

  /** Every listed neighbour is a Moore-adjacent tile of the board. */
  lemma NeighboursSound(width: nat, height: nat, i: nat, n: nat)
    requires ValidDimensions(width, height) && i < width * height
    requires n in Neighbours(width, height, i)
    ensures n < width * height && Adjacent(width, i, n)
  {
    NeighboursUnrolled(width, height, i);
    RowInBoard(width, height, i);
    var (x, y) := IndexToCoordinates(width, i);
    forall dx: int, dy: int | n in Offset(width, height, x, y, dx, dy)
      ensures IndexToCoordinates(width, n) == (x + dx, y + dy) && n < width * height
    {
      OffsetMember(width, height, x, y, dx, dy, n);
    }
  }

  /** Every Moore-adjacent tile of the board is listed. */
  lemma NeighboursComplete(width: nat, height: nat, i: nat, n: nat)
    requires ValidDimensions(width, height) && i < width * height
    requires n < width * height && Adjacent(width, i, n)
    ensures n in Neighbours(width, height, i)
  {
    NeighboursUnrolled(width, height, i);
    RowInBoard(width, height, i);
    RowInBoard(width, height, n);
    var (x, y) := IndexToCoordinates(width, i);
    var (nx, ny) := IndexToCoordinates(width, n);
    var dx, dy := nx - x, ny - y;
    assert n in Offset(width, height, x, y, dx, dy);
    if dy == -1 {
      if dx == -1 {
        assert n in Offset(width, height, x, y, -1, -1);
      } else if dx == 0 {
        assert n in Offset(width, height, x, y, 0, -1);
      } else {
        assert n in Offset(width, height, x, y, 1, -1);
      }
    } else if dy == 0 {
      if dx == -1 {
        assert n in Offset(width, height, x, y, -1, 0);
      } else {
        assert dx == 1;
        assert n in Offset(width, height, x, y, 1, 0);
      }
    } else {
      if dx == -1 {
        assert n in Offset(width, height, x, y, -1, 1);
      } else if dx == 0 {
        assert n in Offset(width, height, x, y, 0, 1);
      } else {
        assert n in Offset(width, height, x, y, 1, 1);
      }
    }
  }

  /** A tile at an offset that `dirs` does not hold is not reached through `dirs`. */
  lemma {:induction false} ReachAvoids(width: nat, height: nat, x: nat, y: nat, dirs: seq<(int, int)>,
                                       dx: int, dy: int, n: nat)
    requires x < width && y < height
    requires IndexToCoordinates(width, n) == (x + dx, y + dy) && (dx, dy) !in dirs
    ensures n !in Reach(width, height, x, y, dirs)
    decreases |dirs|
  {
    if dirs != [] {
      var front := dirs[..|dirs| - 1];
      var (ex, ey) := dirs[|dirs| - 1];
      assert forall d :: d in front ==> d in dirs;
      ReachAvoids(width, height, x, y, front, dx, dy, n);
      forall m | m in Offset(width, height, x, y, ex, ey)
        ensures m != n
      {
        OffsetMember(width, height, x, y, ex, ey, m);
        assert (ex, ey) != (dx, dy);
      }
    }
  }

  /** Distinct directions reach distinct tiles. */
  lemma {:induction false} ReachDistinct(width: nat, height: nat, x: nat, y: nat, dirs: seq<(int, int)>)
    requires x < width && y < height
    requires forall a, b :: 0 <= a < b < |dirs| ==> dirs[a] != dirs[b]
    ensures Distinct(Reach(width, height, x, y, dirs))
    decreases |dirs|
  {
    if dirs != [] {
      var front := dirs[..|dirs| - 1];
      var (ex, ey) := dirs[|dirs| - 1];
      ReachDistinct(width, height, x, y, front);
      forall m | m in Offset(width, height, x, y, ex, ey)
        ensures m !in Reach(width, height, x, y, front)
      {
        OffsetMember(width, height, x, y, ex, ey, m);
        ReachAvoids(width, height, x, y, front, ex, ey, m);
      }
      DistinctAppend(Reach(width, height, x, y, front), Offset(width, height, x, y, ex, ey));
    }
  }

  /** The neighbour list names every tile at most once. */
  lemma NeighboursDistinct(width: nat, height: nat, i: nat)
    requires ValidDimensions(width, height) && i < width * height
    ensures Distinct(Neighbours(width, height, i))
  {
    RowInBoard(width, height, i);
    var (x, y) := IndexToCoordinates(width, i);
    ReachDistinct(width, height, x, y, Directions);
  }

  /**
   * A cell has (columns in reach) * (rows in reach) - 1 neighbours: 8 inside,
   * 5 on an edge, 3 in a corner of a board at least two tiles wide and high.
   */
  lemma NeighbourCount(width: nat, height: nat, i: nat)
    requires ValidDimensions(width, height) && i < width * height
    ensures |Neighbours(width, height, i)| + 1
         == Span(IndexToCoordinates(width, i).0, width) * Span(IndexToCoordinates(width, i).1, height)
  {
    NeighboursUnrolled(width, height, i);
    RowInBoard(width, height, i);
    var (x, y) := IndexToCoordinates(width, i);
    var above := |Offset(width, height, x, y, -1, -1)| + |Offset(width, height, x, y, 0, -1)|
               + |Offset(width, height, x, y, 1, -1)|;
    var level := |Offset(width, height, x, y, -1, 0)| + |Offset(width, height, x, y, 1, 0)|;
    var below := |Offset(width, height, x, y, -1, 1)| + |Offset(width, height, x, y, 0, 1)|
               + |Offset(width, height, x, y, 1, 1)|;
    assert above == if y > 0 then Span(x, width) else 0;
    assert level + 1 == Span(x, width);
    assert below == if y + 1 < height then Span(x, width) else 0;
    assert |Neighbours(width, height, i)| == above + level + below;
  }

  /** At most eight neighbours, at most three in a corner and at most five on an edge. */
  lemma NeighbourBounds(width: nat, height: nat, i: nat)
    requires ValidDimensions(width, height) && i < width * height
    ensures var (x, y) := IndexToCoordinates(width, i);
      && |Neighbours(width, height, i)| <= 8
      && ((x == 0 || x == width - 1) && (y == 0 || y == height - 1) ==> |Neighbours(width, height, i)| <= 3)
      && ((x == 0 || x == width - 1 || y == 0 || y == height - 1) ==> |Neighbours(width, height, i)| <= 5)
  {
    NeighbourCount(width, height, i);
  }
}
