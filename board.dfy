/** The board of the connect-N game: the two marks, cell states, positions,
    the board as a value (a grid of rows) and the two-dimensional array the
    game keeps and updates in place. */
module Board {

  datatype Option<+T> = None | Some(value: T)

  /** The two player symbols, 'X' and 'O'. */
  datatype Mark = X | O

  /** A cell is EMPTY (the empty string in the game) or holds a mark. */
  datatype Cell = Empty | Marked(mark: Mark)

  /** A cell coordinate, as the `{row, col}` records the game passes around. */
  datatype Pos = Pos(row: nat, col: nat)

  /** The board as a value: a sequence of rows. */
  type Grid = seq<seq<Cell>>

  /** The other mark (`m === PLAYER_X ? PLAYER_O : PLAYER_X`). */
  function Opponent(m: Mark): (r: Mark)
    ensures r != m && (m == X <==> r == O)
  {
    if m == X then O else X
  }

  /** Number of columns, read from the first row as the scanner does. */
  function Width(g: Grid): nat {
    if |g| == 0 then 0 else |g[0]|
  }

  ghost predicate IsRect(g: Grid) {
    forall i :: 0 <= i < |g| ==> |g[i]| == Width(g)
  }

  predicate InBounds(g: Grid, p: Pos) {
    p.row < |g| && p.col < Width(g)
  }

  predicate IsEmptyAt(g: Grid, p: Pos)
    requires IsRect(g)
  {
    InBounds(g, p) && g[p.row][p.col] == Empty
  }

  /** Row-major order on cells: lower row first, then lower column. */
  predicate Before(p: Pos, q: Pos) {
    p.row < q.row || (p.row == q.row && p.col < q.col)
  }

  /** The grid after writing `c` into cell `p` (`board[i][j] = c`). */
  function Place(g: Grid, p: Pos, c: Cell): (r: Grid)
    requires IsRect(g) && InBounds(g, p)
    ensures IsRect(r) && |r| == |g| && Width(r) == Width(g)
    ensures r[p.row][p.col] == c
    ensures forall i, j :: 0 <= i < |g| && 0 <= j < Width(g) && (i != p.row || j != p.col) ==> r[i][j] == g[i][j]
  {
    g[p.row := g[p.row][p.col := c]]
  }

  /** Writing a mark into an empty cell and clearing it again gives back the grid. */
  lemma PlaceThenClear(g: Grid, p: Pos, c: Cell)
    requires IsRect(g) && IsEmptyAt(g, p)
    ensures Place(Place(g, p, c), p, Empty) == g
  {
    var r := Place(Place(g, p, c), p, Empty);
    forall i | 0 <= i < |g| ensures r[i] == g[i] {
      assert |r[i]| == |g[i]|;
    }
  }

  /** The current contents of the array as a grid value. */
  function Snapshot(b: array2<Cell>): (g: Grid)
    reads b
    ensures IsRect(g) && |g| == b.Length0
    ensures b.Length0 > 0 ==> Width(g) == b.Length1
    ensures forall i, j :: 0 <= i < b.Length0 && 0 <= j < b.Length1 ==> g[i][j] == b[i, j]
  {
    seq(b.Length0, i requires 0 <= i < b.Length0 reads b =>
      seq(b.Length1, j requires 0 <= j < b.Length1 reads b => b[i, j]))
  }

  /** `board[p.row][p.col] = c` on the array. */
  method SetCell(b: array2<Cell>, p: Pos, c: Cell)
    requires p.row < b.Length0 && p.col < b.Length1
    modifies b
    ensures Snapshot(b) == Place(old(Snapshot(b)), p, c)
  {
    ghost var g := Snapshot(b);
    b[p.row, p.col] := c;
    ghost var r := Place(g, p, c);
    forall i | 0 <= i < b.Length0 ensures Snapshot(b)[i] == r[i] {
      assert |Snapshot(b)[i]| == |r[i]|;
    }
  }

  /** createTwoDimensionalArray: a rows-by-columns board with every cell set to `e`. */
  method CreateTwoDimensionalArray(rows: nat, columns: nat, e: Cell) returns (a: array2<Cell>)
    ensures fresh(a) && a.Length0 == rows && a.Length1 == columns
    ensures forall i, j :: 0 <= i < rows && 0 <= j < columns ==> a[i, j] == e
  {
    a := new Cell[rows, columns];
    for i := 0 to rows
      invariant forall r, c :: 0 <= r < i && 0 <= c < columns ==> a[r, c] == e
    {
      for j := 0 to columns
        invariant forall r, c :: 0 <= r < i && 0 <= c < columns ==> a[r, c] == e
        invariant forall c :: 0 <= c < j ==> a[i, c] == e
      {
        a[i, j] := e;
      }
    }
  }
}
