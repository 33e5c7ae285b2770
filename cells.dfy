/** Geometry of a Minesweeper board whose cells are numbered row by row:
    the cell in row i and column j of a board `width` cells wide is i * width + j. */
module Cells {

  /** Two rows (or two columns) that are equal or next to each other. */
  predicate Near(x: int, y: int) {
    -1 <= x - y <= 1
  }

  /** The cells of the clipped 3x3 block centred on c, without c itself. */
  function Neighbours(width: int, height: int, c: int): set<int>
    requires width > 0
  {
    set a | 0 <= a < width * height && a != c && Near(a / width, c / width) && Near(a % width, c % width)
  }

  /** Cell a lies in rows [r0, r1) and columns [q0, q1). */
  predicate InBlock(width: int, a: int, r0: int, r1: int, q0: int, q1: int)
    requires width > 0
  {
    0 <= a && r0 <= a / width < r1 && q0 <= a % width < q1
  }

  /** The cells of row r in columns [q0, q1), listed column by column as the inner loop of
      the source adds them. */
  function RowCells(width: int, r: int, q0: int, q1: int): set<int>
    decreases q1 - q0
  {
    if q1 <= q0 then {} else RowCells(width, r, q0, q1 - 1) + {r * width + (q1 - 1)}
  }

  /** The cells of rows [r0, r1) and columns [q0, q1), listed row by row as the outer loop of
      the source adds them. */
  function BlockCells(width: int, r0: int, r1: int, q0: int, q1: int): set<int>
    decreases r1 - r0
  {
    if r1 <= r0 then {} else BlockCells(width, r0, r1 - 1, q0, q1) + RowCells(width, r1 - 1, q0, q1)
  }

  /** Row r, column q names the cell r * width + q. */
  lemma CellAt(width: int, r: int, q: int)
    requires width > 0 && 0 <= q < width
    ensures (r * width + q) / width == r && (r * width + q) % width == q
  {
    var a := r * width + q;
    var d := r - a / width;
    assert d * width == a % width - q;
  }

  /** Every cell number is recovered from its row and column. */
  lemma Decompose(width: int, a: int)
    requires width > 0
    ensures (a / width) * width + a % width == a
  {
  }

  /** A cell number is on the board exactly when its row is. */
  lemma RowInRange(width: int, height: int, a: int)
    requires width > 0 && 0 <= a
    ensures a < width * height <==> a / width < height
  {
    var r := a / width;
    assert r * width <= a < r * width + width by {
      Decompose(width, a);
    }
    if r < height {
      MulMono(r + 1, height, width);
    } else {
      MulMono(height, r, width);
    }
  }

  /** Multiplying by a non-negative factor keeps the order. */
  lemma MulMono(x: int, y: int, w: int)
    requires x <= y && 0 <= w
    ensures x * w <= y * w
  {
    assert y * w - x * w == (y - x) * w;
  }

  lemma SubsetCard(a: set<int>, b: set<int>)
    requires a <= b
    ensures |a| <= |b|
  {
    assert b == a + (b - a);
    assert a * (b - a) == {};
  }

  /** The cells the inner loop adds are exactly those in row r, columns [q0, q1). */
  lemma {:induction false} RowCellsMember(width: int, r: int, q0: int, q1: int, a: int)
    requires width > 0 && 0 <= r && 0 <= q0 && q1 <= width
    ensures a in RowCells(width, r, q0, q1) <==> InBlock(width, a, r, r + 1, q0, q1)
    decreases q1 - q0
  {
    if q0 < q1 {
      RowCellsMember(width, r, q0, q1 - 1, a);
      CellAt(width, r, q1 - 1);
      Decompose(width, a);
    }
  }

  /** The cells the two loops add are exactly those in rows [r0, r1), columns [q0, q1). */
  lemma {:induction false} BlockCellsMember(width: int, r0: int, r1: int, q0: int, q1: int, a: int)
    requires width > 0 && 0 <= r0 && 0 <= q0 && q1 <= width
    ensures a in BlockCells(width, r0, r1, q0, q1) <==> InBlock(width, a, r0, r1, q0, q1)
    decreases r1 - r0
  {
    if r0 < r1 {
      BlockCellsMember(width, r0, r1 - 1, q0, q1, a);
      RowCellsMember(width, r1 - 1, q0, q1, a);
    }
  }

  /** Adjacency is symmetric: a is next to c exactly when c is next to a. */
  lemma NeighboursSymmetric(width: int, height: int, a: int, c: int)
    requires width > 0 && 0 <= a < width * height && 0 <= c < width * height
    ensures a in Neighbours(width, height, c) <==> c in Neighbours(width, height, a)
  {
  }

  /** Every neighbour is a cell of the board, and c is not its own neighbour. */
  lemma NeighboursOnBoard(width: int, height: int, c: int, a: int)
    requires width > 0 && a in Neighbours(width, height, c)
    ensures 0 <= a < width * height && a != c
  {
  }

  /** A neighbour lies at one of the eight offsets around c. */
  lemma NeighbourOffset(width: int, height: int, c: int, a: int)
    requires width > 0 && a in Neighbours(width, height, c)
    ensures a - c in {-width - 1, -width, -width + 1, -1, 1, width - 1, width, width + 1}
  {
    Decompose(width, a);
    Decompose(width, c);
    OffsetOfNear(width, a / width, a % width, c / width, c % width);
  }

  /** Moving at most one row and one column changes the cell number by one of nine offsets. */
  lemma OffsetOfNear(width: int, r: int, q: int, i: int, j: int)
    requires width > 0 && Near(r, i) && Near(q, j)
    ensures (r * width + q) - (i * width + j) in {-width - 1, -width, -width + 1, -1, 0, 1, width - 1, width, width + 1}
  {
    if r == i - 1 {
      assert r * width == i * width - width;
    } else if r == i + 1 {
      assert r * width == i * width + width;
    }
  }

  /** A cell has at most eight neighbours. */
  lemma NeighboursCard(width: int, height: int, c: int)
    requires width > 0
    ensures |Neighbours(width, height, c)| <= 8
  {
    var w := width;
    var around := {c - w - 1, c - w, c - w + 1, c - 1, c + 1, c + w - 1, c + w, c + w + 1};
    assert |around| <= 8;
    forall a | a in Neighbours(width, height, c)
      ensures a in around
    {
      NeighbourOffset(width, height, c, a);
    }
    SubsetCard(Neighbours(width, height, c), around);
  }

  function Max(x: int, y: int): int {
    if x > y then x else y
  }

  function Min(x: int, y: int): int {
    if x < y then x else y
  }

  /** Clipping the range [i - 1, i + 2) to [0, n) keeps exactly the indices below n next to i. */
  lemma ClipRange(i: int, n: int, r: int)
    requires 0 <= i < n && 0 <= r
    ensures Max(0, i - 1) <= r < Min(n, i + 2) <==> r < n && Near(r, i)
  {
  }

  /** The clipped block around row i, column j holds the cells next to it in both row and column. */
  lemma ClipBlock(width: int, height: int, a: int, i: int, j: int)
    requires width > 0 && 0 <= i < height && 0 <= j < width && 0 <= a
    ensures InBlock(width, a, Max(0, i - 1), Min(height, i + 2), Max(0, j - 1), Min(width, j + 2)) <==>
      a / width < height && Near(a / width, i) && Near(a % width, j)
  {
    ClipRange(i, height, a / width);
    ClipRange(j, width, a % width);
  }

  /** Membership in the neighbour set, read off the rows and columns of a and c. */
  lemma NeighbourByRowCol(width: int, height: int, c: int, a: int)
    requires width > 0 && 0 <= a
    requires a < width * height <==> a / width < height
    ensures a in Neighbours(width, height, c) <==>
      a / width < height && a != c && Near(a / width, c / width) && Near(a % width, c % width)
  {
  }

  /** The clipped block around c's row i and column j, less c, is the neighbour set of c. */
  lemma BlockMinusCentre(width: int, height: int, c: int, i: int, j: int)
    requires width > 0 && 0 <= c && i == c / width && j == c % width && 0 <= i < height
    ensures BlockCells(width, Max(0, i - 1), Min(height, i + 2), Max(0, j - 1), Min(width, j + 2)) - {c}
      == Neighbours(width, height, c)
  {
    var block := BlockCells(width, Max(0, i - 1), Min(height, i + 2), Max(0, j - 1), Min(width, j + 2));
    forall a
      ensures a in block - {c} <==> a in Neighbours(width, height, c)
    {
      BlockCellsMember(width, Max(0, i - 1), Min(height, i + 2), Max(0, j - 1), Min(width, j + 2), a);
      if 0 <= a {
        RowInRange(width, height, a);
        ClipBlock(width, height, a, i, j);
        NeighbourByRowCol(width, height, c, a);
      }
    }
  }

  /** The row of a cell on the board is a row of the board. */
  lemma CellRow(width: int, height: int, c: int)
    requires width > 0 && 0 <= c < width * height
    ensures 0 <= c / width < height && (c / width) * width + c % width == c
  {
    RowInRange(width, height, c);
    Decompose(width, c);
  }

  /** The neighbour set of cell c, built as the source builds it: every cell of the
      clipped 3x3 block around c, then c itself removed. */
  method AdjacentCells(width: int, height: int, c: int) returns (cells: set<int>)
    requires width > 0 && height > 0 && 0 <= c && c / width < height
    ensures cells == Neighbours(width, height, c)
    ensures |cells| <= 8
  {
    var i := c / width;
    var j := c % width;
    assert i * width + j == c && 0 <= j < width by {
      Decompose(width, c);
    }
    var rowLo, rowHi := Max(0, i - 1), Min(height, i + 2);
    var colLo, colHi := Max(0, j - 1), Min(width, j + 2);
    cells := {};
    var ii := rowLo;
    while ii < rowHi
      invariant rowLo <= ii <= rowHi
      invariant cells == BlockCells(width, rowLo, ii, colLo, colHi)
    {
      var jj := colLo;
      while jj < colHi
        invariant colLo <= jj <= colHi
        invariant cells == BlockCells(width, rowLo, ii, colLo, colHi) + RowCells(width, ii, colLo, jj)
      {
        cells := cells + {ii * width + jj};
        jj := jj + 1;
      }
      ii := ii + 1;
    }
    cells := cells - {i * width + j};
    assert cells == Neighbours(width, height, c) by {
      BlockMinusCentre(width, height, c, i, j);
    }
    NeighboursCard(width, height, c);
  }
}
