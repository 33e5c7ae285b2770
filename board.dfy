/** The Minesweeper board: mine placement, the mine field of neighbour counts, the
    cleared-cell bitmap, the reveal step and the two views of the board. */
module Minefield {
  import opened Cells

  /** Mine-field entry of a cell that holds a mine. */
  const MINE := 9
  /** View entry of a cell that is still covered. */
  const COVERED := 10

  /** The number of mines next to cell c. */
  function MineCount(width: int, height: int, mines: set<int>, c: int): nat
    requires width > 0
  {
    |Neighbours(width, height, c) * mines|
  }

  /** The mine-field entry of cell c: MINE on a mine, otherwise the number of mines next to it. */
  function FieldValue(width: int, height: int, mines: set<int>, c: int): int
    requires width > 0
  {
    if c in mines then MINE else MineCount(width, height, mines, c)
  }

  /** A cell has at most eight mines next to it. */
  lemma MineCountBounded(width: int, height: int, mines: set<int>, c: int)
    requires width > 0
    ensures MineCount(width, height, mines, c) <= 8
  {
    NeighboursCard(width, height, c);
    SubsetCard(Neighbours(width, height, c) * mines, Neighbours(width, height, c));
  }

  /** The two sentinels never collide with a count: an entry is MINE exactly on a mine,
      and no entry is COVERED. */
  lemma FieldValueSentinels(width: int, height: int, mines: set<int>, c: int)
    requires width > 0
    ensures FieldValue(width, height, mines, c) == MINE <==> c in mines
    ensures c !in mines ==> 0 <= FieldValue(width, height, mines, c) <= 8
    ensures FieldValue(width, height, mines, c) != COVERED
  {
    MineCountBounded(width, height, mines, c);
  }

  /** Adding mine m to the mines already counted raises the count of c by one exactly when
      c is a neighbour of m. */
  lemma MineCountStep(width: int, height: int, done: set<int>, m: int, c: int)
    requires width > 0 && m !in done
    requires 0 <= m < width * height && 0 <= c < width * height
    ensures MineCount(width, height, done + {m}, c) ==
      MineCount(width, height, done, c) + (if c in Neighbours(width, height, m) then 1 else 0)
  {
    var nbrs := Neighbours(width, height, c);
    NeighboursSymmetric(width, height, c, m);
    if m in nbrs {
      assert nbrs * (done + {m}) == nbrs * done + {m};
    } else {
      assert nbrs * (done + {m}) == nbrs * done;
    }
  }

  /** Some element of a non-empty set: the next element an iteration over a hash set yields,
      in an order the model leaves open. */
  method Pick(s: set<int>) returns (x: int)
    requires s != {}
    ensures x in s
  {
    NoMemberEmpty(s);
    x :| x in s;
  }

  /** A set with no members is empty. */
  lemma NoMemberEmpty(s: set<int>)
    ensures (forall y :: y !in s) ==> s == {}
  {
    if forall y :: y !in s {
      assert s == {};
    }
  }

  // ---------------------------------------------------------------------------------------
  // Mine placement

  /** Outcome of placing the mines: the mine set, or the error raised when there are at
      least as many mines as cells. */
  datatype Placement = Placed(mines: set<int>) | TooManyMines

  /** A set holding every cell 0 .. n-1 has at least n elements. */
  lemma {:induction false} HoldsRangeCard(taken: set<int>, n: int)
    requires forall c :: 0 <= c < n ==> c in taken
    ensures |taken| >= n
    decreases n
  {
    if n > 0 {
      var rest := taken - {n - 1};
      HoldsRangeCard(rest, n - 1);
      assert taken == rest + {n - 1};
    }
  }

  /** While fewer than n cells hold a mine, some cell of the board is free. */
  lemma FreeCellExists(taken: set<int>, n: int)
    requires |taken| < n
    ensures exists c :: 0 <= c < n && c !in taken
  {
    if forall c :: 0 <= c < n ==> c in taken {
      HoldsRangeCard(taken, n);
    }
  }

  /** Picks numMines distinct cells of a board of n cells. Each draw is an arbitrary cell not
      already taken, which stands for the source's retry-until-free random draw. */
  method PlaceMines(n: int, numMines: int) returns (r: Placement)
    ensures r.TooManyMines? <==> numMines >= n
    ensures r.Placed? ==> |r.mines| == Max(0, numMines)
    ensures r.Placed? ==> forall m :: m in r.mines ==> 0 <= m < n
  {
    if numMines >= n {
      return TooManyMines;
    }
    var mines: set<int> := {};
    var k := 0;
    while k < numMines
      invariant 0 <= k <= Max(0, numMines)
      invariant |mines| == k
      invariant forall m :: m in mines ==> 0 <= m < n
    {
      FreeCellExists(mines, n);
      var c :| 0 <= c < n && c !in mines;
      mines := mines + {c};
      k := k + 1;
    }
    return Placed(mines);
  }

  /** Builds the mine field as the source does: MINE on every mine, then one more for every
      mine next to each cell that is not a mine. Mines are visited in an arbitrary order, and
      so are the neighbours of each mine. */
  method BuildMineField(width: int, height: int, mines: set<int>) returns (field: array<int>)
    requires width > 0 && height > 0
    requires forall m :: m in mines ==> 0 <= m < width * height
    ensures fresh(field) && field.Length == width * height
    ensures forall c :: 0 <= c < field.Length ==> field[c] == FieldValue(width, height, mines, c)
  {
    field := new int[width * height](_ => 0);
    MarkMines(field, mines);
    var todo := mines;
    ghost var done: set<int> := {};
    NothingCounted(field, width, height, mines);
    while todo != {}
      invariant todo <= mines && done == mines - todo
      invariant Counted(field, width, height, mines, done)
    {
      var m := Pick(todo);
      CountMine(field, width, height, mines, done, m);
      todo := todo - {m};
      done := done + {m};
    }
    assert done == mines;
  }

  /** Every entry of field is MINE on a mine and, elsewhere, the number of mines of `done`
      next to it. */
  ghost predicate Counted(field: array<int>, width: int, height: int, mines: set<int>, done: set<int>)
    requires width > 0
    reads field
  {
    forall c :: 0 <= c < field.Length ==>
      field[c] == if c in mines then MINE else MineCount(width, height, done, c)
  }

  /** Before any mine is counted, the marks of the first pass are the counts of no mines. */
  lemma NothingCounted(field: array<int>, width: int, height: int, mines: set<int>)
    requires width > 0
    requires forall c :: 0 <= c < field.Length ==> field[c] == if c in mines then MINE else 0
    ensures Counted(field, width, height, mines, {})
  {
    forall c | 0 <= c < field.Length
      ensures MineCount(width, height, {}, c) == 0
    {
      assert Neighbours(width, height, c) * {} == {};
    }
  }

  /** The first pass over the mines, in any order: MINE on every mine, every other entry
      left at 0. */
  method MarkMines(field: array<int>, mines: set<int>)
    requires forall m :: m in mines ==> 0 <= m < field.Length
    requires forall c :: 0 <= c < field.Length ==> field[c] == 0
    modifies field
    ensures forall c :: 0 <= c < field.Length ==> field[c] == if c in mines then MINE else 0
  {
    var todo := mines;
    while todo != {}
      invariant todo <= mines
      invariant forall c :: 0 <= c < field.Length ==> field[c] == if c in mines - todo then MINE else 0
    {
      var m := Pick(todo);
      field[m] := MINE;
      todo := todo - {m};
    }
  }

  /** One pass of the counting loop: every cell next to mine m that is not itself a mine
      gains one, so the counts now take m into account as well as the mines in done. */
  method CountMine(field: array<int>, width: int, height: int, mines: set<int>, ghost done: set<int>, m: int)
    requires width > 0 && height > 0 && field.Length == width * height
    requires m in mines && m !in done && 0 <= m < width * height
    requires Counted(field, width, height, mines, done)
    modifies field
    ensures Counted(field, width, height, mines, done + {m})
  {
    CellRow(width, height, m);
    var nbrs := AdjacentCells(width, height, m);
    var rest := nbrs;
    while rest != {}
      invariant rest <= nbrs
      invariant forall c :: 0 <= c < field.Length ==>
        field[c] == if c in mines then MINE
                    else MineCount(width, height, done, c) + (if c in nbrs - rest then 1 else 0)
    {
      var a := Pick(rest);
      NeighboursOnBoard(width, height, m, a);
      MineCountBounded(width, height, done, a);
      if field[a] != MINE {
        field[a] := field[a] + 1;
      }
      rest := rest - {a};
    }
    forall c | 0 <= c < field.Length
      ensures MineCount(width, height, done + {m}, c) ==
        MineCount(width, height, done, c) + (if c in nbrs then 1 else 0)
    {
      MineCountStep(width, height, done, m, c);
    }
  }

  // ---------------------------------------------------------------------------------------
  // The reveal step, stated on snapshots of the cleared-cell bitmap

  /** Cell y was covered in `before` and is cleared in `after`. */
  ghost predicate Revealed(before: seq<bool>, after: seq<bool>, y: int) {
    0 <= y < |before| && y < |after| && after[y] && !before[y]
  }

  /** Every cell cleared since `before` stays cleared. */
  ghost predicate Grows(before: seq<bool>, after: seq<bool>) {
    |before| == |after| && forall y :: 0 <= y < |before| && before[y] ==> after[y]
  }

  /** Every cell a sweep from c reveals, other than c itself, is a neighbour of c or of another
      revealed cell, and that cell has a mine next to it: the literal sweep spreads only from
      cells with a mine neighbour. */
  ghost predicate SweptFrom(width: int, height: int, mines: set<int>, before: seq<bool>, after: seq<bool>, c: int)
    requires width > 0
  {
    forall y :: Revealed(before, after, y) && y != c ==>
      exists x :: (x == c || Revealed(before, after, x)) &&
                  y in Neighbours(width, height, x) && Neighbours(width, height, x) * mines != {}
  }

  /** Clearing one more covered neighbour of c, when c has a mine next to it, keeps the shape. */
  lemma SweptFromExtend(width: int, height: int, mines: set<int>, before: seq<bool>, now: seq<bool>, c: int, i: int)
    requires width > 0 && Grows(before, now)
    requires SweptFrom(width, height, mines, before, now, c)
    requires 0 <= i < |now| && !now[i]
    requires i in Neighbours(width, height, c) && Neighbours(width, height, c) * mines != {}
    ensures SweptFrom(width, height, mines, before, now[i := true], c)
  {
    var after := now[i := true];
    forall y | Revealed(before, after, y) && y != c
      ensures exists x :: (x == c || Revealed(before, after, x)) &&
                          y in Neighbours(width, height, x) && Neighbours(width, height, x) * mines != {}
    {
      if y == i {
        assert y in Neighbours(width, height, c);
      } else {
        assert Revealed(before, now, y);
        var x :| (x == c || Revealed(before, now, x)) &&
          y in Neighbours(width, height, x) && Neighbours(width, height, x) * mines != {};
        assert x == c || Revealed(before, after, x);
      }
    }
  }

  /** A nested sweep from i, started right after i was revealed, keeps the shape of the
      sweep from c. */
  lemma {:induction false} SweptFromCompose(width: int, height: int, mines: set<int>,
                                            b0: seq<bool>, b1: seq<bool>, b2: seq<bool>, c: int, i: int)
    requires width > 0 && Grows(b0, b1) && Grows(b1, b2)
    requires SweptFrom(width, height, mines, b0, b1, c)
    requires SweptFrom(width, height, mines, b1, b2, i)
    requires Revealed(b0, b1, i)
    ensures SweptFrom(width, height, mines, b0, b2, c)
  {
    forall y | Revealed(b0, b2, y) && y != c
      ensures exists x :: (x == c || Revealed(b0, b2, x)) &&
                          y in Neighbours(width, height, x) && Neighbours(width, height, x) * mines != {}
    {
      if b1[y] {
        assert Revealed(b0, b1, y);
        var x :| (x == c || Revealed(b0, b1, x)) &&
          y in Neighbours(width, height, x) && Neighbours(width, height, x) * mines != {};
        assert x == c || Revealed(b0, b2, x);
      } else {
        assert Revealed(b1, b2, y) && y != i;
        var x :| (x == i || Revealed(b1, b2, x)) &&
          y in Neighbours(width, height, x) && Neighbours(width, height, x) * mines != {};
        assert Revealed(b0, b2, x);
      }
    }
  }

  /** On a 5 x 5 board whose only mine is cell 0, the far corner 24 has no mine next to it. */
  lemma FarCornerHasNoMineNeighbour()
    ensures Neighbours(5, 5, 24) * {0} == {}
  {
    assert 0 !in Neighbours(5, 5, 24);
  }

  // ---------------------------------------------------------------------------------------
  // Views

  /** The player's view of a field: COVERED on every cell not yet cleared, the field's own
      entry on every cleared cell. */
  function CoverOf(field: seq<int>, cleared: seq<bool>): seq<int>
    requires |field| <= |cleared|
  {
    seq(|field|, c requires 0 <= c < |field| => if cleared[c] then field[c] else COVERED)
  }

  /** The covered view depends only on the entries of cleared cells: two fields that agree
      there look the same. */
  lemma CoverHidesCovered(f1: seq<int>, f2: seq<int>, cleared: seq<bool>)
    requires |f1| == |f2| <= |cleared|
    requires forall c :: 0 <= c < |f1| && cleared[c] ==> f1[c] == f2[c]
    ensures CoverOf(f1, cleared) == CoverOf(f2, cleared)
  {
  }

  /** Once every cell is cleared, the covered view is the field itself. */
  lemma CoverAllCleared(field: seq<int>, cleared: seq<bool>)
    requires |field| <= |cleared|
    requires forall c :: 0 <= c < |field| ==> cleared[c]
    ensures CoverOf(field, cleared) == field
  {
  }

  /** Copies `board` and replaces the entry of every cell that is not cleared by COVERED;
      `board` itself is left as it was. */
  method Cover(board: array<int>, sweptCells: array<bool>) returns (covered: array<int>)
    requires board.Length <= sweptCells.Length
    ensures fresh(covered)
    ensures covered[..] == CoverOf(board[..], sweptCells[..])
  {
    covered := new int[board.Length](i reads board => if 0 <= i < board.Length then board[i] else 0);
    for c := 0 to board.Length
      invariant forall k :: 0 <= k < c ==> covered[k] == if sweptCells[k] then board[k] else COVERED
      invariant forall k :: c <= k < board.Length ==> covered[k] == board[k]
    {
      if !sweptCells[c] {
        covered[c] := COVERED;
      }
    }
  }

  /** Index i * n + j of a vector of length len lies inside it when row i is one of the
      len / n full rows and column j one of the n columns. */
  lemma RowIndexInRange(len: int, n: int, i: int, j: int)
    requires n > 0 && 0 <= len && 0 <= i < len / n && 0 <= j < n
    ensures 0 <= i * n + j < len
  {
    assert i * n <= (len / n - 1) * n;
    Decompose(n, len);
  }

  /** Row i, column j of a grid with rows of n entries names entry i * n + j of a vector of
      length len. */
  predicate InVector(len: int, n: int, i: int, j: int) {
    0 <= i * n + j < len
  }

  /** Grid m holds the vector v row by row, n entries to a row. */
  ghost predicate RowsOf(m: array2<int>, v: seq<int>, n: int)
    reads m
  {
    forall i, j :: 0 <= i < m.Length0 && 0 <= j < m.Length1 ==> InVector(|v|, n, i, j) && m[i, j] == v[i * n + j]
  }

  /** Read the other way: every entry c of v that falls in one of the grid's rows sits in row
      c / n, column c % n. */
  ghost predicate EntriesIn(m: array2<int>, v: seq<int>, n: int)
    requires n > 0 && m.Length1 == n
    reads m
  {
    forall c :: 0 <= c < |v| && c / n < m.Length0 ==> m[c / n, c % n] == v[c]
  }

  /** A grid that holds v row by row holds every entry of v that falls in one of its rows. */
  lemma RowsOfInverse(m: array2<int>, v: seq<int>, n: int)
    requires n > 0 && m.Length1 == n && RowsOf(m, v, n)
    ensures EntriesIn(m, v, n)
  {
    forall c | 0 <= c < |v| && c / n < m.Length0
      ensures m[c / n, c % n] == v[c]
    {
      var r, j := c / n, c % n;
      assert 0 <= r && 0 <= j < n && r * n + j == c by {
        Decompose(n, c);
      }
      assert m[r, j] == v[r * n + j];
    }
  }

  /** Cuts the vector v into v.Length / n rows of n entries each. */
  method Reshape(v: array<int>, n: int) returns (m: array2<int>)
    requires n > 0
    ensures fresh(m) && m.Length0 == v.Length / n && m.Length1 == n
    ensures RowsOf(m, v[..], n) && EntriesIn(m, v[..], n)
  {
    var rows := v.Length / n;
    m := new int[rows, n];
    for i := 0 to rows
      invariant forall r, j :: 0 <= r < i && 0 <= j < n ==> InVector(v.Length, n, r, j) && m[r, j] == v[r * n + j]
    {
      RowIndexInRange(v.Length, n, i, n - 1);
      forall j | 0 <= j < n {
        m[i, j] := v[i * n + j];
      }
    }
    RowsOfInverse(m, v[..], n);
  }

  /** A board of width * height cells has height full rows. */
  lemma FullRows(width: int, height: int)
    requires width > 0 && height > 0
    ensures (width * height) / width == height && ((width * height) / width) * width == width * height
  {
    CellAt(width, height, 0);
    assert height * width == width * height;
  }

  // ---------------------------------------------------------------------------------------
  // The board

  class Board {
    const width: int
    const height: int
    /** The cells holding a mine. */
    const mines: set<int>
    /** MINE on a mine, otherwise the number of mines next to the cell. */
    const mineField: array<int>
    /** Whether each cell has been cleared. */
    const clearedCells: array<bool>

    /** The part of the board fixed at construction: the shape, the mines and the mine field
        that counts them. */
    ghost predicate Laid()
      reads this, mineField
    {
      width > 0 && height > 0 &&
      mineField.Length == width * height && clearedCells.Length == width * height &&
      (forall m :: m in mines ==> 0 <= m < width * height) &&
      (forall c :: 0 <= c < mineField.Length ==> mineField[c] == FieldValue(width, height, mines, c))
    }

    /** A laid board on which no mine has been cleared. */
    ghost predicate Valid()
      reads this, mineField, clearedCells
    {
      Laid() &&
      forall c :: 0 <= c < clearedCells.Length && clearedCells[c] ==> c !in mines
    }

    /** The cells still covered. */
    ghost function Uncleared(): set<int>
      reads this, clearedCells
    {
      set c | 0 <= c < clearedCells.Length && !clearedCells[c]
    }

    /** Every cell without a mine has been cleared. */
    ghost predicate AllSafeCleared()
      reads this, clearedCells
    {
      forall c :: 0 <= c < clearedCells.Length && c !in mines ==> clearedCells[c]
    }

    constructor (width: int, height: int, numMines: int)
      requires width > 0 && height > 0 && numMines < width * height
      ensures Valid() && fresh(mineField) && fresh(clearedCells)
      ensures this.width == width && this.height == height
      ensures |mines| == Max(0, numMines)
      ensures forall c :: 0 <= c < clearedCells.Length ==> !clearedCells[c]
    {
      var n := width * height;
      var placement := PlaceMines(n, numMines);
      var field := BuildMineField(width, height, placement.mines);
      this.width := width;
      this.height := height;
      mines := placement.mines;
      mineField := field;
      clearedCells := new bool[n](_ => false);
    }

    /** Whether the game is won: at most as many cells are covered as there are mines,
        counted by one decrement per cleared cell. */
    method AllClear() returns (r: bool)
      requires Valid()
      ensures r <==> |Uncleared()| <= |mines|
      ensures r <==> AllSafeCleared()
    {
      var unclear := height * width;
      for k := 0 to clearedCells.Length
        invariant unclear == height * width - k + |set c | 0 <= c < k && !clearedCells[c]|
      {
        if clearedCells[k] {
          unclear := unclear - 1;
        }
        assert (set c | 0 <= c < k + 1 && !clearedCells[c]) ==
          (set c | 0 <= c < k && !clearedCells[c]) + (if clearedCells[k] then {} else {k});
      }
      r := unclear <= |mines|;
      WonByCount();
    }

    /** Counting decides the game: no more cells are covered than there are mines exactly when
        every cell without a mine has been cleared. */
    lemma WonByCount()
      requires Valid()
      ensures |Uncleared()| <= |mines| <==> AllSafeCleared()
    {
      assert mines <= Uncleared();
      if AllSafeCleared() {
        assert Uncleared() <= mines;
        SubsetCard(Uncleared(), mines);
      } else {
        var c :| 0 <= c < clearedCells.Length && c !in mines && !clearedCells[c];
        assert mines + {c} <= Uncleared();
        SubsetCard(mines + {c}, Uncleared());
      }
    }

    /** The reveal step, as the source writes it: clear c, then walk the neighbours of c in
        some order; from the first mine met on, every covered neighbour that is not a mine is
        cleared and swept in turn. */
    method Sweep(c: int)
      requires Valid() && 0 <= c < clearedCells.Length && c !in mines
      modifies clearedCells
      ensures Valid()
      ensures clearedCells[c]
      ensures Grows(old(clearedCells[..]), clearedCells[..])
      ensures Neighbours(width, height, c) * mines == {} ==> clearedCells[..] == old(clearedCells[..])[c := true]
      ensures SweptFrom(width, height, mines, old(clearedCells[..]), clearedCells[..], c)
      decreases Uncleared()
    {
      ghost var before := clearedCells[..];
      clearedCells[c] := true;
      CellRow(width, height, c);
      var neighbours := AdjacentCells(width, height, c);
      var mineNext := false;
      var rest := neighbours;
      while rest != {}
        invariant rest <= neighbours
        invariant Valid() && clearedCells[c]
        invariant Grows(before, clearedCells[..])
        invariant mineNext ==> neighbours * mines != {}
        invariant !mineNext ==> clearedCells[..] == before[c := true]
        invariant SweptFrom(width, height, mines, before, clearedCells[..], c)
      {
        var i := Pick(rest);
        rest := rest - {i};
        NeighboursOnBoard(width, height, c, i);
        MineCountBounded(width, height, mines, i);
        if mineField[i] == MINE {
          assert i in neighbours * mines;
          mineNext := true;
        } else if !clearedCells[i] && mineNext {
          ghost var now := clearedCells[..];
          clearedCells[i] := true;
          SweptFromExtend(width, height, mines, before, now, c, i);
          assert Uncleared() < old(Uncleared()) by {
            assert i in old(Uncleared()) && i !in Uncleared();
          }
          ghost var b1 := clearedCells[..];
          Sweep(i);
          SweptFromCompose(width, height, mines, before, b1, clearedCells[..], c, i);
        }
      }
    }

    /** The player clicks cell c: false on a mine, which leaves the board as it was;
        otherwise the reveal step runs from c. */
    method Clear(c: int) returns (ok: bool)
      requires Valid() && 0 <= c < clearedCells.Length
      modifies clearedCells
      ensures Valid()
      ensures ok <==> c !in mines
      ensures !ok ==> clearedCells[..] == old(clearedCells[..])
      ensures ok ==> clearedCells[c] && Grows(old(clearedCells[..]), clearedCells[..])
      ensures ok && Neighbours(width, height, c) * mines == {} ==> clearedCells[..] == old(clearedCells[..])[c := true]
      ensures ok ==> SweptFrom(width, height, mines, old(clearedCells[..]), clearedCells[..], c)
    {
      if c in mines {
        return false;
      }
      Sweep(c);
      return true;
    }

    /** The full mine field as a height x width grid: row i, column j holds cell
        i * width + j, and every cell c is found in row c / width, column c % width
        (CellRow shows that every cell's row is one of the grid's rows). */
    method ClearedView() returns (m: array2<int>)
      requires Valid()
      ensures fresh(m) && m.Length0 == height && m.Length1 == width
      ensures RowsOf(m, mineField[..], width) && EntriesIn(m, mineField[..], width)
    {
      FullRows(width, height);
      m := Reshape(mineField, width);
    }

    /** The player's view as a height x width grid: the covered copy of the mine field, laid
        out row by row in the same way. */
    method CoveredView() returns (m: array2<int>)
      requires Valid()
      ensures fresh(m) && m.Length0 == height && m.Length1 == width
      ensures RowsOf(m, CoverOf(mineField[..], clearedCells[..]), width)
      ensures EntriesIn(m, CoverOf(mineField[..], clearedCells[..]), width)
    {
      var coverField := Cover(mineField, clearedCells);
      FullRows(width, height);
      m := Reshape(coverField, width);
    }

    /** While the board is valid, the covered view never shows a mine: each entry is a count
        from 0 to 8 or COVERED. */
    lemma CoveredViewHidesMines()
      requires Valid()
      ensures forall c :: 0 <= c < mineField.Length ==>
        var v := CoverOf(mineField[..], clearedCells[..])[c]; v == COVERED || 0 <= v <= 8
    {
      forall c | 0 <= c < mineField.Length
        ensures var v := CoverOf(mineField[..], clearedCells[..])[c]; v == COVERED || 0 <= v <= 8
      {
        FieldValueSentinels(width, height, mines, c);
      }
    }
  }

  /** A click on the far corner of a 5 x 5 board whose only mine is cell 0 clears that corner
      and nothing else, whatever order the neighbours are visited in. */
  method FarCornerClick(b: Board)
    requires b.Valid() && b.width == 5 && b.height == 5 && b.mines == {0}
    modifies b.clearedCells
    ensures b.clearedCells[..] == old(b.clearedCells[..])[24 := true]
  {
    FarCornerHasNoMineNeighbour();
    var ok := b.Clear(24);
  }
}
