/** The 2048 engine of `setup2048`: a 4x4 grid of tiles (0 is an empty cell)
    and a score. Only the left move has a branch; the other arrows reach
    `move` and leave everything as it was. */
module Game2048 {
  import opened Host
  import opened Tiles

  const Size := 4

  type Grid = seq<seq<int>>

  datatype Direction = Left | Right | Up | Down

  predicate IsGrid(g: Grid) {
    |g| == Size && forall i :: 0 <= i < Size ==> |g[i]| == Size
  }

  /** Every cell is empty or a power of two of at least 2. */
  predicate CellsOk(g: Grid)
    requires IsGrid(g)
  {
    forall i, j :: 0 <= i < Size && 0 <= j < Size ==> IsCell(g[i][j])
  }

  predicate IsFull(g: Grid)
    requires IsGrid(g)
  {
    forall i, j :: 0 <= i < Size && 0 <= j < Size ==> g[i][j] != 0
  }

  /** The cells that hold a tile. */
  function NonZeroCells(g: Grid): set<(int, int)>
    requires IsGrid(g)
  {
    set i, j | 0 <= i < Size && 0 <= j < Size && g[i][j] != 0 :: (i, j)
  }

  /** `Array(4).fill(null).map(() => Array(4).fill(0))`. */
  function EmptyGrid(): (g: Grid)
    ensures IsGrid(g) && NonZeroCells(g) == {}
  {
    seq(Size, _ => Zeros(Size))
  }

  // ---------------------------------------------------------------------
  // addNewTile

  /** The empty cells among the first `n` cells in row-major order, in that
      order: what the nested loops of `addNewTile` have pushed onto `empty`
      after visiting `n` cells. */
  function EmptyPrefix(g: Grid, n: nat): seq<(int, int)>
    requires IsGrid(g) && n <= Size * Size
  {
    if n == 0 then []
    else
      var c := ((n - 1) / Size, (n - 1) % Size);
      EmptyPrefix(g, n - 1) + (if g[c.0][c.1] == 0 then [c] else [])
  }

  /** The first `n` visits push exactly the empty cells among the first `n`
      cells in row-major order. */
  lemma {:induction false} EmptyPrefixMembers(g: Grid, n: nat)
    requires IsGrid(g) && n <= Size * Size
    ensures forall c :: c in EmptyPrefix(g, n) <==>
      0 <= c.0 < Size && 0 <= c.1 < Size && c.0 * Size + c.1 < n && g[c.0][c.1] == 0
  {
    if n > 0 {
      EmptyPrefixMembers(g, n - 1);
    }
  }

  /** The position of cell `c` in the row-major visiting order. */
  function RowMajor(c: (int, int)): int {
    c.0 * Size + c.1
  }

  /** The cells are pushed in strictly increasing visiting order, so no cell
      is pushed twice. */
  lemma {:induction false} EmptyPrefixOrdered(g: Grid, n: nat)
    requires IsGrid(g) && n <= Size * Size
    ensures forall a, b :: 0 <= a < b < |EmptyPrefix(g, n)| ==>
      RowMajor(EmptyPrefix(g, n)[a]) < RowMajor(EmptyPrefix(g, n)[b])
  {
    if n > 0 {
      var before := EmptyPrefix(g, n - 1);
      EmptyPrefixOrdered(g, n - 1);
      EmptyPrefixMembers(g, n - 1);
      var c := ((n - 1) / Size, (n - 1) % Size);
      assert RowMajor(c) == n - 1;
      var e := EmptyPrefix(g, n);
      assert e == before + (if g[c.0][c.1] == 0 then [c] else []);
      forall a, b | 0 <= a < b < |e| ensures RowMajor(e[a]) < RowMajor(e[b]) {
        assert e[a] == before[a];
        if b == |before| {
          assert e[a] in before;
        } else {
          assert e[b] == before[b];
        }
      }
    }
  }

  /** Visiting cell `(i, j)` pushes it when it is empty. */
  lemma EmptyPrefixStep(g: Grid, i: nat, j: nat)
    requires IsGrid(g) && i < Size && j < Size
    ensures EmptyPrefix(g, i * Size + j + 1) ==
      EmptyPrefix(g, i * Size + j) + (if g[i][j] == 0 then [(i, j)] else [])
  {
    assert (i * Size + j) / Size == i && (i * Size + j) % Size == j;
  }

  /** The empty cells of the grid, in row-major order. */
  function EmptyCells(g: Grid): seq<(int, int)>
    requires IsGrid(g)
  {
    EmptyPrefix(g, Size * Size)
  }

  /** The collected cells are exactly the empty ones. */
  lemma EmptyCellsMembers(g: Grid)
    requires IsGrid(g)
    ensures forall c :: c in EmptyCells(g) <==> 0 <= c.0 < Size && 0 <= c.1 < Size && g[c.0][c.1] == 0
  {
    EmptyPrefixMembers(g, Size * Size);
  }

  /** Every empty cell appears exactly once, in row-major order, so the draw
      picks among the empty cells without favouring any of them. */
  lemma EmptyCellsOrdered(g: Grid)
    requires IsGrid(g)
    ensures forall a, b :: 0 <= a < b < |EmptyCells(g)| ==>
      RowMajor(EmptyCells(g)[a]) < RowMajor(EmptyCells(g)[b])
    ensures forall a, b :: 0 <= a < b < |EmptyCells(g)| ==> EmptyCells(g)[a] != EmptyCells(g)[b]
  {
    EmptyPrefixOrdered(g, Size * Size);
  }

  /** There is an empty cell to pick exactly when the grid is not full. */
  lemma EmptyCellsIffNotFull(g: Grid)
    requires IsGrid(g)
    ensures |EmptyCells(g)| == 0 <==> IsFull(g)
  {
    EmptyCellsMembers(g);
    if |EmptyCells(g)| > 0 {
      assert EmptyCells(g)[0] in EmptyCells(g);
    }
    if !IsFull(g) {
      var i, j :| 0 <= i < Size && 0 <= j < Size && g[i][j] == 0;
      assert (i, j) in EmptyCells(g);
    }
  }

  /** `Math.random() < 0.9 ? 2 : 4`. */
  function TileValue(r: real): (v: int)
    ensures (v == 2 || v == 4) && IsTile(v)
  {
    if r < 0.9 then 2 else 4
  }

  /** The grid after `addNewTile` with the draws `rIndex` (which empty cell)
      and `rValue` (2 or 4). */
  function Spawn(g: Grid, rIndex: real, rValue: real): (r: Grid)
    requires IsGrid(g) && IsRandom(rIndex)
    ensures IsGrid(r)
  {
    var empty := EmptyCells(g);
    if |empty| == 0 then g
    else
      var c := empty[ScaledFloor(rIndex, |empty|)];
      EmptyCellsMembers(g);
      assert c in empty;
      g[c.0 := g[c.0][c.1 := TileValue(rValue)]]
  }

  /** `s` is `g` with a 2 or a 4 written into cell `(i, j)` and nothing else changed. */
  ghost predicate FillsOnly(g: Grid, s: Grid, i: int, j: int)
    requires IsGrid(g) && IsGrid(s) && 0 <= i < Size && 0 <= j < Size
  {
    && (s[i][j] == 2 || s[i][j] == 4)
    && (forall a, b :: 0 <= a < Size && 0 <= b < Size && (a, b) != (i, j) ==> s[a][b] == g[a][b])
    && NonZeroCells(s) == NonZeroCells(g) + {(i, j)}
  }

  /** `addNewTile` leaves a full grid alone; otherwise it puts a 2 or a 4 into
      exactly one cell that was empty and changes no other cell, so the tiles
      already on the grid are never overwritten. */
  lemma SpawnFillsOneEmptyCell(g: Grid, rIndex: real, rValue: real)
    requires IsGrid(g) && IsRandom(rIndex)
    ensures IsFull(g) ==> Spawn(g, rIndex, rValue) == g
    ensures !IsFull(g) ==>
      exists i, j :: 0 <= i < Size && 0 <= j < Size && g[i][j] == 0 && FillsOnly(g, Spawn(g, rIndex, rValue), i, j)
  {
    var empty := EmptyCells(g);
    EmptyCellsIffNotFull(g);
    EmptyCellsMembers(g);
    if !IsFull(g) {
      var c := empty[ScaledFloor(rIndex, |empty|)];
      assert c in empty;
      var s := Spawn(g, rIndex, rValue);
      assert NonZeroCells(s) == NonZeroCells(g) + {c};
      assert FillsOnly(g, s, c.0, c.1);
    }
  }

  /** A spawn on a grid with room adds exactly one tile. */
  lemma SpawnAddsOneTile(g: Grid, rIndex: real, rValue: real)
    requires IsGrid(g) && IsRandom(rIndex) && !IsFull(g)
    ensures |NonZeroCells(Spawn(g, rIndex, rValue))| == |NonZeroCells(g)| + 1
    ensures forall c :: c in NonZeroCells(g) ==> Spawn(g, rIndex, rValue)[c.0][c.1] == g[c.0][c.1]
  {
    SpawnFillsOneEmptyCell(g, rIndex, rValue);
    var i, j :| 0 <= i < Size && 0 <= j < Size && g[i][j] == 0 &&
      FillsOnly(g, Spawn(g, rIndex, rValue), i, j);
    assert (i, j) !in NonZeroCells(g);
  }

  /** A spawn keeps every cell empty or a power of two. */
  lemma SpawnKeepsCells(g: Grid, rIndex: real, rValue: real)
    requires IsGrid(g) && CellsOk(g) && IsRandom(rIndex)
    ensures CellsOk(Spawn(g, rIndex, rValue))
  {
    assert IsTile(4) by {
      assert 4 / 2 == 2;
    }
  }

  /** `initGrid`: on a fresh grid two spawns leave exactly two tiles, each a 2
      or a 4, and every other cell empty. */
  lemma InitGridHasTwoTiles(r1: real, r2: real, r3: real, r4: real)
    requires IsRandom(r1) && IsRandom(r3)
    ensures var g := Spawn(Spawn(EmptyGrid(), r1, r2), r3, r4);
      && |NonZeroCells(g)| == 2
      && forall c :: c in NonZeroCells(g) ==> g[c.0][c.1] == 2 || g[c.0][c.1] == 4
  {
    var g0 := EmptyGrid();
    assert !IsFull(g0) by {
      assert g0[0][0] == 0;
    }
    SpawnFillsOneEmptyCell(g0, r1, r2);
    SpawnAddsOneTile(g0, r1, r2);
    var g1 := Spawn(g0, r1, r2);
    assert !IsFull(g1) by {
      var i, j :| 0 <= i < Size && 0 <= j < Size && g0[i][j] == 0 && FillsOnly(g0, g1, i, j);
      var b := if j == 0 then 1 else 0;
      assert g1[i][b] == 0;
    }
    SpawnFillsOneEmptyCell(g1, r3, r4);
    SpawnAddsOneTile(g1, r3, r4);
  }

  // ---------------------------------------------------------------------
  // move

  /** Every row of the grid slid left. */
  function SlideGridLeft(g: Grid): (r: Grid)
    requires IsGrid(g)
    ensures IsGrid(r)
  {
    seq(Size, i requires 0 <= i < Size && IsGrid(g) => SlideLeft(g[i]))
  }

  /** The points of the first `n` rows in a left move. */
  function RowsGain(g: Grid, n: nat): int
    requires n <= |g|
  {
    if n == 0 then 0 else RowsGain(g, n - 1) + RowGain(g[n - 1])
  }

  /** The grid after the row loop of `move(direction)`: only `'left'` has a branch. */
  function MoveGrid(g: Grid, dir: Direction): (r: Grid)
    requires IsGrid(g)
    ensures IsGrid(r)
  {
    if dir == Left then SlideGridLeft(g) else g
  }

  /** The points `move(direction)` adds to `score`. */
  function MoveGain(g: Grid, dir: Direction): int
    requires IsGrid(g)
  {
    if dir == Left then RowsGain(g, Size) else 0
  }

  /** A move keeps every cell empty or a power of two. */
  lemma MoveKeepsCells(g: Grid, dir: Direction)
    requires IsGrid(g) && CellsOk(g)
    ensures CellsOk(MoveGrid(g, dir))
  {
    if dir == Left {
      forall i | 0 <= i < Size ensures forall j :: 0 <= j < Size ==> IsCell(SlideGridLeft(g)[i][j]) {
        SlideLeftKeepsCells(g[i]);
      }
    }
  }

  lemma {:induction false} RowsGainFindsRow(g: Grid, n: nat)
    requires IsGrid(g) && CellsOk(g) && n <= Size
    ensures RowsGain(g, n) >= 0
    ensures RowsGain(g, n) != 0 ==> exists k :: 0 <= k < n && RowGain(g[k]) != 0
  {
    if n > 0 {
      RowsGainFindsRow(g, n - 1);
      RowGainChangesRow(g[n - 1]);
    }
  }

  /** Points never go negative, and a move that scores also changes the grid,
      so the score is only ever raised together with a spawn. */
  lemma MoveScoresOnlyWhenGridChanges(g: Grid, dir: Direction)
    requires IsGrid(g) && CellsOk(g)
    ensures MoveGain(g, dir) >= 0
    ensures MoveGain(g, dir) != 0 ==> MoveGrid(g, dir) != g
  {
    if dir == Left {
      RowsGainFindsRow(g, Size);
      if RowsGain(g, Size) != 0 {
        var k :| 0 <= k < Size && RowGain(g[k]) != 0;
        RowGainChangesRow(g[k]);
        assert SlideGridLeft(g)[k] != g[k];
      }
    }
  }

  // ---------------------------------------------------------------------
  // The engine state held in the closure of `setup2048`.

  class Game {
    var grid: Grid
    var score: int

    /** Before the first start the grid is `[]`; afterwards it is a 4x4 grid of
        empty cells and powers of two. The score never goes negative. */
    ghost predicate Valid()
      reads this
    {
      && (grid == [] || (IsGrid(grid) && CellsOk(grid)))
      && score >= 0
    }

    constructor ()
      ensures Valid() && grid == [] && score == 0
    {
      grid := [];
      score := 0;
    }

    /** The nested loops of `addNewTile` that collect the empty cells. */
    method FindEmpty() returns (empty: seq<(int, int)>)
      requires IsGrid(grid)
      ensures empty == EmptyCells(grid)
    {
      empty := [];
      var i := 0;
      while i < Size
        invariant 0 <= i <= Size
        invariant empty == EmptyPrefix(grid, i * Size)
      {
        var j := 0;
        while j < Size
          invariant 0 <= j <= Size
          invariant empty == EmptyPrefix(grid, i * Size + j)
        {
          EmptyPrefixStep(grid, i, j);
          if grid[i][j] == 0 {
            empty := empty + [(i, j)];
          }
          j := j + 1;
        }
        assert i * Size + j == (i + 1) * Size;
        i := i + 1;
      }
    }

    method AddNewTile(rIndex: real, rValue: real)
      requires IsGrid(grid) && IsRandom(rIndex)
      modifies this`grid
      ensures grid == Spawn(old(grid), rIndex, rValue)
    {
      var empty := FindEmpty();
      if |empty| > 0 {
        EmptyCellsMembers(grid);
        var (i, j) := empty[ScaledFloor(rIndex, |empty|)];
        assert (i, j) in empty;
        grid := grid[i := grid[i][j := TileValue(rValue)]];
      }
    }

    /** `initGrid`: a fresh all-zero grid and two spawns. */
    method InitGrid(r1: real, r2: real, r3: real, r4: real)
      requires IsRandom(r1) && IsRandom(r3)
      modifies this`grid
      ensures grid == Spawn(Spawn(EmptyGrid(), r1, r2), r3, r4)
      ensures IsGrid(grid) && CellsOk(grid)
      ensures |NonZeroCells(grid)| == 2
      ensures forall c :: c in NonZeroCells(grid) ==> grid[c.0][c.1] == 2 || grid[c.0][c.1] == 4
    {
      grid := EmptyGrid();
      AddNewTile(r1, r2);
      AddNewTile(r3, r4);
      InitGridHasTwoTiles(r1, r2, r3, r4);
      SpawnKeepsCells(EmptyGrid(), r1, r2);
      SpawnKeepsCells(Spawn(EmptyGrid(), r1, r2), r3, r4);
    }

    /** `move(direction)`: run the row loop, then spawn a tile only when the
        grid differs from its snapshot. */
    method Move(dir: Direction, rIndex: real, rValue: real)
      requires Valid() && IsGrid(grid) && IsRandom(rIndex)
      modifies this
      ensures Valid() && IsGrid(grid)
      ensures score == old(score) + MoveGain(old(grid), dir)
      ensures grid ==
        if MoveGrid(old(grid), dir) == old(grid) then old(grid)
        else Spawn(MoveGrid(old(grid), dir), rIndex, rValue)
      ensures dir != Left ==> grid == old(grid) && score == old(score)
    {
      var oldGrid := grid;
      if dir == Left {
        var i := 0;
        while i < Size
          invariant 0 <= i <= Size && |grid| == Size
          invariant forall k :: 0 <= k < i ==> grid[k] == SlideLeft(oldGrid[k])
          invariant forall k :: i <= k < Size ==> grid[k] == oldGrid[k]
          invariant score == old(score) + RowsGain(oldGrid, i)
        {
          var row := NonZero(grid[i]);
          var gained;
          row, gained := MergeLeft(row);
          score := score + gained;
          grid := grid[i := row + Zeros(RowLength - |row|)];
          i := i + 1;
        }
        assert grid == SlideGridLeft(oldGrid);
      }
      MoveKeepsCells(oldGrid, dir);
      MoveScoresOnlyWhenGridChanges(oldGrid, dir);
      var moved := oldGrid != grid;
      if moved {
        SpawnKeepsCells(grid, rIndex, rValue);
        AddNewTile(rIndex, rValue);
      }
    }

    /** The start button: clear the grid and the score, then `initGrid`. */
    method Start(r1: real, r2: real, r3: real, r4: real)
      requires IsRandom(r1) && IsRandom(r3)
      modifies this
      ensures Valid() && IsGrid(grid) && score == 0
      ensures grid == Spawn(Spawn(EmptyGrid(), r1, r2), r3, r4)
    {
      grid := [];
      score := 0;
      InitGrid(r1, r2, r3, r4);
    }

    /** An arrow key moves the grid once it has been started; only the left
        arrow can change anything. */
    method KeyDown(key: Key, rIndex: real, rValue: real)
      requires Valid() && IsRandom(rIndex)
      modifies this
      ensures Valid()
      ensures old(grid) == [] || key != ArrowLeft ==> grid == old(grid) && score == old(score)
      ensures old(grid) != [] && key == ArrowLeft ==>
        && score == old(score) + MoveGain(old(grid), Left)
        && grid ==
          if MoveGrid(old(grid), Left) == old(grid) then old(grid)
          else Spawn(MoveGrid(old(grid), Left), rIndex, rValue)
    {
      if grid == [] {
        return;
      }
      if key == ArrowLeft {
        Move(Left, rIndex, rValue);
      }
      if key == ArrowRight {
        Move(Right, rIndex, rValue);
      }
      if key == ArrowUp {
        Move(Up, rIndex, rValue);
      }
      if key == ArrowDown {
        Move(Down, rIndex, rValue);
      }
    }
  }
}
