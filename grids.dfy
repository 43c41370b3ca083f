/** The 9x9 grid of digits shared by the solver, the generator and the board.
    A grid array is an `array2<int>` of 9 rows and 9 columns, 0 meaning an empty
    cell; its value, for specifications, is the row-major sequence of its 81 cells. */
module Grids {

  /** The value of a grid: its 81 cells in row-major order. */
  type Grid = g: seq<int> | |g| == 81 witness seq(81, _ => 0)

  predicate InRange(row: int, col: int) {
    0 <= row < 9 && 0 <= col < 9
  }

  /** The cell at (row, col). */
  function Cell(g: Grid, row: int, col: int): int
    requires InRange(row, col)
  {
    g[9 * row + col]
  }

  /** `g` with `v` written at (row, col). */
  function Place(g: Grid, row: int, col: int, v: int): (h: Grid)
    requires InRange(row, col)
    ensures forall r, c :: InRange(r, c) ==>
      Cell(h, r, c) == if r == row && c == col then v else Cell(g, r, c)
  {
    g[9 * row + col := v]
  }

  /** The all-empty grid, as `new int[9, 9]` starts out. */
  function EmptyGrid(): (g: Grid)
    ensures forall r, c :: InRange(r, c) ==> Cell(g, r, c) == 0
  {
    seq(81, _ => 0)
  }

  /** Two grids are equal when they agree cell by cell. */
  lemma SameCells(g: Grid, h: Grid)
    requires forall r, c :: InRange(r, c) ==> Cell(g, r, c) == Cell(h, r, c)
    ensures g == h
  {
    forall k | 0 <= k < 81
      ensures g[k] == h[k]
    {
      assert 9 * (k / 9) + k % 9 == k;
      assert Cell(g, k / 9, k % 9) == Cell(h, k / 9, k % 9);
    }
  }

  /** Number of empty cells. */
  function Zeros(s: seq<int>): (n: nat)
    ensures n <= |s|
  {
    if s == [] then 0 else (if s[0] == 0 then 1 else 0) + Zeros(s[1..])
  }

  /** Number of filled cells (the clues of a puzzle). */
  function ClueCount(g: Grid): (n: nat)
    ensures n == 81 - Zeros(g)
  {
    81 - Zeros(g)
  }

  /** How writing one cell changes the number of empty cells. */
  lemma {:induction false} ZerosAfterWrite(s: seq<int>, k: nat, v: int)
    requires k < |s|
    ensures Zeros(s[k := v]) ==
      Zeros(s) - (if s[k] == 0 then 1 else 0) + (if v == 0 then 1 else 0)
  {
    if k == 0 {
      assert s[k := v][1..] == s[1..];
    } else {
      ZerosAfterWrite(s[1..], k - 1, v);
      assert s[k := v][1..] == s[1..][k - 1 := v];
    }
  }

  /** The row-major index of the first empty cell, or |s| when there is none. */
  function FirstZero(s: seq<int>): (k: nat)
    ensures k <= |s|
    ensures k < |s| ==> s[k] == 0
    ensures forall j :: 0 <= j < k ==> s[j] != 0
  {
    if s == [] then 0 else if s[0] == 0 then 0 else 1 + FirstZero(s[1..])
  }

  lemma {:induction false} NoZeroWhenNoneCounted(s: seq<int>)
    ensures Zeros(s) == 0 <==> FirstZero(s) == |s|
  {
    if s != [] {
      NoZeroWhenNoneCounted(s[1..]);
    }
  }

  /** A row-major scan that stops at (row, col) has found the first empty cell. */
  lemma FirstZeroAt(g: Grid, row: int, col: int)
    requires InRange(row, col) && Cell(g, row, col) == 0
    requires forall r, c :: InRange(r, c) && (r < row || (r == row && c < col)) ==> Cell(g, r, c) != 0
    ensures FirstZero(g) == 9 * row + col
  {
    forall j | 0 <= j < 9 * row + col
      ensures g[j] != 0
    {
      assert Cell(g, j / 9, j % 9) == g[j];
    }
  }

  /** A row-major scan that finds no empty cell has seen a grid without one. */
  lemma NoFirstZero(g: Grid)
    requires forall r, c :: InRange(r, c) ==> Cell(g, r, c) != 0
    ensures FirstZero(g) == 81 && Zeros(g) == 0
  {
    forall j | 0 <= j < 81
      ensures g[j] != 0
    {
      assert Cell(g, j / 9, j % 9) == g[j];
    }
    NoZeroWhenNoneCounted(g);
  }

  /** A 9x9 array, the only shape the source allocates. */
  predicate IsGridArray<T>(a: array2<T>) {
    a.Length0 == 9 && a.Length1 == 9
  }

  /** The first n cells of a grid array in row-major order. */
  ghost function Flatten(a: array2<int>, n: nat): seq<int>
    requires IsGridArray(a) && n <= 81
    reads a
  {
    if n == 0 then [] else Flatten(a, n - 1) + [a[(n - 1) / 9, (n - 1) % 9]]
  }

  lemma {:induction false} FlattenCells(a: array2<int>, n: nat)
    requires IsGridArray(a) && n <= 81
    ensures |Flatten(a, n)| == n
    ensures forall r, c :: InRange(r, c) && 9 * r + c < n ==> Flatten(a, n)[9 * r + c] == a[r, c]
  {
    if n > 0 {
      FlattenCells(a, n - 1);
      forall r, c | InRange(r, c) && 9 * r + c == n - 1
        ensures Flatten(a, n)[9 * r + c] == a[r, c]
      {
        assert (n - 1) / 9 == r && (n - 1) % 9 == c;
      }
    }
  }

  /** The value held by a grid array. */
  ghost function Snapshot(a: array2<int>): (g: Grid)
    requires IsGridArray(a)
    reads a
    ensures forall r, c :: InRange(r, c) ==> Cell(g, r, c) == a[r, c]
  {
    FlattenCells(a, 81);
    Flatten(a, 81)
  }

  /** `grid[row, col] = v`, seen through the grid's value. */
  method WriteCell(grid: array2<int>, row: int, col: int, v: int)
    requires IsGridArray(grid) && InRange(row, col)
    modifies grid
    ensures Snapshot(grid) == Place(old(Snapshot(grid)), row, col, v)
  {
    grid[row, col] := v;
    SameCells(Snapshot(grid), Place(old(Snapshot(grid)), row, col, v));
  }

  /** `(int[,])grid.Clone()`: a fresh array with the same cells. */
  method CloneGrid(grid: array2<int>) returns (copy: array2<int>)
    requires IsGridArray(grid)
    ensures fresh(copy) && IsGridArray(copy)
    ensures Snapshot(copy) == Snapshot(grid)
  {
    copy := new int[9, 9];
    for r := 0 to 9
      invariant forall i, j :: 0 <= i < r && 0 <= j < 9 ==> copy[i, j] == grid[i, j]
    {
      for c := 0 to 9
        invariant forall i, j :: 0 <= i < r && 0 <= j < 9 ==> copy[i, j] == grid[i, j]
        invariant forall j :: 0 <= j < c ==> copy[r, j] == grid[r, j]
      {
        copy[r, c] := grid[r, c];
      }
    }
    SameCells(Snapshot(copy), Snapshot(grid));
  }
}
