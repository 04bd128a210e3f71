/** The line scanner: win detection over every horizontal, vertical,
    diagonal and anti-diagonal window of `win` cells, and the full-board test. */
module Scanner {
  import opened Board

  datatype Direction = Horizontal | Vertical | Diagonal | AntiDiagonal

  /** Row of the k-th cell of the window anchored at row i. */
  function RowAt(d: Direction, i: int, k: int): int {
    if d == Horizontal then i else i + k
  }

  /** Column of the k-th cell of the window anchored at column j. */
  function ColAt(d: Direction, j: int, k: int, win: nat): int {
    match d
    case Horizontal => j + k
    case Vertical => j
    case Diagonal => j + k
    case AntiDiagonal => j + win - 1 - k
  }

  /** The anchors the scanner visits on a rows-by-columns board: a horizontal
      window starts at a column j <= columns - win, a vertical one at a row
      i <= rows - win, and both diagonals need both bounds. */
  predicate Anchored(rows: int, columns: int, win: nat, d: Direction, i: int, j: int) {
    match d
    case Horizontal => 0 <= i < rows && 0 <= j <= columns - win
    case Vertical => 0 <= i <= rows - win && 0 <= j < columns
    case Diagonal => 0 <= i <= rows - win && 0 <= j <= columns - win
    case AntiDiagonal => 0 <= i <= rows - win && 0 <= j <= columns - win
  }

  /** The `win` cells of the window anchored at (i, j) in direction d. */
  function Window(g: Grid, win: nat, d: Direction, i: int, j: int): (w: seq<Cell>)
    requires IsRect(g) && Anchored(|g|, Width(g), win, d, i, j)
    ensures |w| == win
  {
    seq(win, k requires 0 <= k < win => g[RowAt(d, i, k)][ColAt(d, j, k, win)])
  }

  /** Every cell of an anchored window lies on the board: the loop bounds of
      checkWinner never index outside it. */
  lemma AnchoredInBounds(rows: int, columns: int, win: nat, d: Direction, i: int, j: int, k: int)
    requires Anchored(rows, columns, win, d, i, j) && 0 <= k < win
    ensures 0 <= RowAt(d, i, k) < rows && 0 <= ColAt(d, j, k, win) < columns
  {
  }

  /** checkLine: the first cell is not EMPTY and every cell equals it.  An
      empty line passes, as `[].every(...)` does in the game. */
  predicate CheckLine(line: seq<Cell>) {
    |line| == 0 || (line[0] != Empty && forall k :: 0 <= k < |line| ==> line[k] == line[0])
  }

  function Uniform(m: Mark, n: nat): (s: seq<Cell>)
    ensures |s| == n && forall k :: 0 <= k < n ==> s[k] == Marked(m)
  {
    seq(n, _ => Marked(m))
  }

  /** A non-empty line passes checkLine exactly when it is one mark repeated. */
  lemma CheckLineIsRun(line: seq<Cell>)
    requires |line| > 0
    ensures CheckLine(line) <==> exists m :: line == Uniform(m, |line|)
  {
    if CheckLine(line) {
      assert line == Uniform(line[0].mark, |line|);
    }
  }

  function Reverse(s: seq<Cell>): (r: seq<Cell>)
    ensures |r| == |s| && forall k :: 0 <= k < |s| ==> r[k] == s[|s| - 1 - k]
  {
    seq(|s|, k requires 0 <= k < |s| => s[|s| - 1 - k])
  }

  /** A line read backwards passes checkLine exactly when it does forwards. */
  lemma CheckLineReverse(line: seq<Cell>)
    ensures CheckLine(Reverse(line)) <==> CheckLine(line)
  {
    var r := Reverse(line);
    var n := |line|;
    if n > 0 {
      if CheckLine(line) {
        assert r[0] == line[n - 1] == line[0];
        forall k | 0 <= k < n ensures r[k] == r[0] {
          assert r[k] == line[n - 1 - k];
        }
      }
      if CheckLine(r) {
        assert line[0] == r[n - 1] == r[0];
        forall k | 0 <= k < n ensures line[k] == line[0] {
          assert line[k] == r[n - 1 - k];
        }
      }
    }
  }

  /** checkWinner: some window of `win` cells passes checkLine. */
  ghost predicate HasWinningLine(g: Grid, win: nat)
    requires IsRect(g)
  {
    exists d, i, j :: Anchored(|g|, Width(g), win, d, i, j) && CheckLine(Window(g, win, d, i, j))
  }

  /** The board turned by 180 degrees: cell (i, j) shows cell (R-1-i, C-1-j). */
  ghost function Rot(g: Grid): (r: Grid)
    requires IsRect(g)
    ensures IsRect(r) && |r| == |g| && Width(r) == Width(g)
  {
    seq(|g|, i requires 0 <= i < |g| => seq(Width(g), j requires 0 <= j < Width(g) => g[|g| - 1 - i][Width(g) - 1 - j]))
  }

  lemma RotRot(g: Grid)
    requires IsRect(g)
    ensures Rot(Rot(g)) == g
  {
    var r := Rot(Rot(g));
    forall i | 0 <= i < |g| ensures r[i] == g[i] {
      assert |r[i]| == |g[i]|;
    }
  }

  /** Where the window anchored at (i, j) lies once the board is turned. */
  function RotAnchor(rows: int, columns: int, win: nat, d: Direction, i: int, j: int): (int, int) {
    match d
    case Horizontal => (rows - 1 - i, columns - win - j)
    case Vertical => (rows - win - i, columns - 1 - j)
    case Diagonal => (rows - win - i, columns - win - j)
    case AntiDiagonal => (rows - win - i, columns - win - j)
  }

  /** A window of the turned board is a window of the board read backwards. */
  lemma RotWindow(g: Grid, win: nat, d: Direction, i: int, j: int)
    requires IsRect(g) && Anchored(|g|, Width(g), win, d, i, j)
    ensures var a := RotAnchor(|g|, Width(g), win, d, i, j);
      Anchored(|g|, Width(g), win, d, a.0, a.1) &&
      Window(Rot(g), win, d, i, j) == Reverse(Window(g, win, d, a.0, a.1))
  {
    var a := RotAnchor(|g|, Width(g), win, d, i, j);
    var w := Window(Rot(g), win, d, i, j);
    var v := Reverse(Window(g, win, d, a.0, a.1));
    forall k | 0 <= k < win ensures w[k] == v[k] {
      AnchoredInBounds(|g|, Width(g), win, d, i, j, k);
      AnchoredInBounds(|g|, Width(g), win, d, a.0, a.1, win - 1 - k);
    }
  }

  lemma RotWins(g: Grid, win: nat)
    requires IsRect(g) && HasWinningLine(Rot(g), win)
    ensures HasWinningLine(g, win)
  {
    var d, i, j :| Anchored(|g|, Width(g), win, d, i, j) && CheckLine(Window(Rot(g), win, d, i, j));
    RotWindow(g, win, d, i, j);
    var a := RotAnchor(|g|, Width(g), win, d, i, j);
    CheckLineReverse(Window(g, win, d, a.0, a.1));
    assert Anchored(|g|, Width(g), win, d, a.0, a.1) && CheckLine(Window(g, win, d, a.0, a.1));
  }

  /** The win test gives the same answer on the board turned by 180 degrees. */
  lemma RotationInvariant(g: Grid, win: nat)
    requires IsRect(g)
    ensures HasWinningLine(Rot(g), win) <==> HasWinningLine(g, win)
  {
    if HasWinningLine(Rot(g), win) {
      RotWins(g, win);
    }
    if HasWinningLine(g, win) {
      RotRot(g);
      RotWins(Rot(g), win);
    }
  }

  /** isBoardFull: no cell is EMPTY. */
  predicate IsBoardFull(g: Grid) {
    forall i, j :: 0 <= i < |g| && 0 <= j < |g[i]| ==> g[i][j] != Empty
  }

  /** The end-of-game test of isGameOver. */
  ghost predicate Terminal(g: Grid, win: nat)
    requires IsRect(g)
  {
    HasWinningLine(g, win) || IsBoardFull(g)
  }

  /** Collects the cells of one window, as the scanner's inner loops push them
      (for horizontal windows the game takes a slice of the row instead). */
  method CollectLine(b: array2<Cell>, win: nat, d: Direction, i: int, j: int) returns (line: seq<Cell>)
    requires b.Length0 > 0 && Anchored(b.Length0, b.Length1, win, d, i, j)
    ensures line == Window(Snapshot(b), win, d, i, j)
  {
    line := [];
    for k := 0 to win
      invariant line == Window(Snapshot(b), win, d, i, j)[..k]
    {
      line := line + [b[RowAt(d, i, k), ColAt(d, j, k, win)]];
    }
  }

  /** Some window of direction d passes checkLine. */
  ghost predicate WinsIn(g: Grid, win: nat, d: Direction)
    requires IsRect(g)
  {
    exists i, j :: Anchored(|g|, Width(g), win, d, i, j) && CheckLine(Window(g, win, d, i, j))
  }

  lemma WinningLineByDirection(g: Grid, win: nat)
    requires IsRect(g)
    ensures HasWinningLine(g, win) <==>
      WinsIn(g, win, Horizontal) || WinsIn(g, win, Vertical) || WinsIn(g, win, Diagonal) || WinsIn(g, win, AntiDiagonal)
  {
    if HasWinningLine(g, win) {
      var d, i, j :| Anchored(|g|, Width(g), win, d, i, j) && CheckLine(Window(g, win, d, i, j));
      assert WinsIn(g, win, d);
    }
  }

  /** The horizontal pass of checkWinner (rows outer, start columns inner). */
  method ScanHorizontal(b: array2<Cell>, win: nat) returns (found: bool)
    requires b.Length0 > 0
    ensures found == WinsIn(Snapshot(b), win, Horizontal)
  {
    ghost var g := Snapshot(b);
    var rows, columns := b.Length0, b.Length1;
    var i := 0;
    while i < rows
      invariant 0 <= i <= rows
      invariant forall r, c :: 0 <= r < i && Anchored(rows, columns, win, Horizontal, r, c) ==> !CheckLine(Window(g, win, Horizontal, r, c))
    {
      var j := 0;
      while j <= columns - win
        invariant 0 <= j
        invariant forall r, c :: 0 <= r < i && Anchored(rows, columns, win, Horizontal, r, c) ==> !CheckLine(Window(g, win, Horizontal, r, c))
        invariant forall c :: 0 <= c < j && Anchored(rows, columns, win, Horizontal, i, c) ==> !CheckLine(Window(g, win, Horizontal, i, c))
      {
        var line := CollectLine(b, win, Horizontal, i, j);
        if CheckLine(line) {
          return true;
        }
        j := j + 1;
      }
      i := i + 1;
    }
    return false;
  }

  /** The vertical pass of checkWinner (columns outer, start rows inner). */
  method ScanVertical(b: array2<Cell>, win: nat) returns (found: bool)
    requires b.Length0 > 0
    ensures found == WinsIn(Snapshot(b), win, Vertical)
  {
    ghost var g := Snapshot(b);
    var rows, columns := b.Length0, b.Length1;
    var i := 0;
    while i < columns
      invariant 0 <= i <= columns
      invariant forall r, c :: 0 <= c < i && Anchored(rows, columns, win, Vertical, r, c) ==> !CheckLine(Window(g, win, Vertical, r, c))
    {
      var j := 0;
      while j <= rows - win
        invariant 0 <= j
        invariant forall r, c :: 0 <= c < i && Anchored(rows, columns, win, Vertical, r, c) ==> !CheckLine(Window(g, win, Vertical, r, c))
        invariant forall r :: 0 <= r < j && Anchored(rows, columns, win, Vertical, r, i) ==> !CheckLine(Window(g, win, Vertical, r, i))
      {
        var line := CollectLine(b, win, Vertical, j, i);
        if CheckLine(line) {
          return true;
        }
        j := j + 1;
      }
      i := i + 1;
    }
    return false;
  }

  /** The diagonal pass of checkWinner: both diagonals of each anchor at once. */
  method ScanDiagonals(b: array2<Cell>, win: nat) returns (found: bool)
    requires b.Length0 > 0
    ensures found == (WinsIn(Snapshot(b), win, Diagonal) || WinsIn(Snapshot(b), win, AntiDiagonal))
  {
    ghost var g := Snapshot(b);
    var rows, columns := b.Length0, b.Length1;
    var i := 0;
    while i <= rows - win
      invariant 0 <= i
      invariant forall r, c :: 0 <= r < i && Anchored(rows, columns, win, Diagonal, r, c) ==> !CheckLine(Window(g, win, Diagonal, r, c))
      invariant forall r, c :: 0 <= r < i && Anchored(rows, columns, win, AntiDiagonal, r, c) ==> !CheckLine(Window(g, win, AntiDiagonal, r, c))
    {
      var j := 0;
      while j <= columns - win
        invariant 0 <= j
        invariant forall r, c :: 0 <= r < i && Anchored(rows, columns, win, Diagonal, r, c) ==> !CheckLine(Window(g, win, Diagonal, r, c))
        invariant forall r, c :: 0 <= r < i && Anchored(rows, columns, win, AntiDiagonal, r, c) ==> !CheckLine(Window(g, win, AntiDiagonal, r, c))
        invariant forall c :: 0 <= c < j && Anchored(rows, columns, win, Diagonal, i, c) ==> !CheckLine(Window(g, win, Diagonal, i, c))
        invariant forall c :: 0 <= c < j && Anchored(rows, columns, win, AntiDiagonal, i, c) ==> !CheckLine(Window(g, win, AntiDiagonal, i, c))
      {
        var line1 := CollectLine(b, win, Diagonal, i, j);
        var line2 := CollectLine(b, win, AntiDiagonal, i, j);
        if CheckLine(line1) || CheckLine(line2) {
          return true;
        }
        j := j + 1;
      }
      i := i + 1;
    }
    return false;
  }

  /** checkWinner: the horizontal, vertical and diagonal passes in that order,
      stopping at the first window that passes checkLine. */
  method CheckWinner(b: array2<Cell>, win: nat) returns (found: bool)
    requires b.Length0 > 0
    ensures found == HasWinningLine(Snapshot(b), win)
  {
    WinningLineByDirection(Snapshot(b), win);
    found := ScanHorizontal(b, win);
    if found {
      return;
    }
    found := ScanVertical(b, win);
    if found {
      return;
    }
    found := ScanDiagonals(b, win);
  }
}
