/** The move generator: the empty cells of a board in row-major order. */
module Moves {
  import opened Board
  import opened Scanner
  import opened Seqs

  /** p is cell (i, j) or comes after it in row-major order. */
  predicate AtOrAfter(p: Pos, i: nat, j: nat) {
    p.row > i || (p.row == i && p.col >= j)
  }

  /** The empty cells from (i, j) on, in the order getEmptyCells visits them. */
  ghost function EmptyFrom(g: Grid, i: nat, j: nat): seq<Pos>
    requires IsRect(g)
    decreases |g| - i, Width(g) - j
  {
    if i >= |g| then []
    else if j >= Width(g) then EmptyFrom(g, i + 1, 0)
    else (if g[i][j] == Empty then [Pos(i, j)] else []) + EmptyFrom(g, i, j + 1)
  }

  /** Every listed cell is an empty cell of g. */
  ghost predicate AllEmpty(g: Grid, cells: seq<Pos>)
    requires IsRect(g)
  {
    forall k :: 0 <= k < |cells| ==> IsEmptyAt(g, cells[k])
  }

  /** The list getEmptyCells returns. */
  ghost function EmptyCells(g: Grid): (cells: seq<Pos>)
    requires IsRect(g)
    ensures AllEmpty(g, cells)
  {
    EmptyFromAllEmpty(g);
    EmptyFrom(g, 0, 0)
  }

  /** One step of the row-major scan over cell (i, j). */
  lemma EmptyFromStep(g: Grid, i: nat, j: nat)
    requires IsRect(g) && i < |g|
    ensures j < Width(g) && g[i][j] == Empty ==> EmptyFrom(g, i, j) == [Pos(i, j)] + EmptyFrom(g, i, j + 1)
    ensures j < Width(g) && g[i][j] != Empty ==> EmptyFrom(g, i, j) == EmptyFrom(g, i, j + 1)
    ensures j >= Width(g) ==> EmptyFrom(g, i, j) == EmptyFrom(g, i + 1, 0)
  {
    if j < Width(g) && g[i][j] != Empty {
      AppendEmpty(EmptyFrom(g, i, j + 1));
    }
  }

  /** The empty cells as a set; its size is the termination measure of the search. */
  ghost function EmptySet(g: Grid): (s: set<Pos>)
    requires IsRect(g)
    ensures forall p :: p in s <==> IsEmptyAt(g, p)
  {
    set i, j | 0 <= i < |g| && 0 <= j < Width(g) && g[i][j] == Empty :: Pos(i, j)
  }

  ghost predicate StrictlyRowMajor(cells: seq<Pos>) {
    forall a, b :: 0 <= a < b < |cells| ==> Before(cells[a], cells[b])
  }

  lemma {:induction false} EmptyFromSpec(g: Grid, i: nat, j: nat)
    requires IsRect(g)
    ensures forall p :: p in EmptyFrom(g, i, j) <==> IsEmptyAt(g, p) && AtOrAfter(p, i, j)
    ensures StrictlyRowMajor(EmptyFrom(g, i, j))
    decreases |g| - i, Width(g) - j
  {
    if i >= |g| {
    } else if j >= Width(g) {
      EmptyFromSpec(g, i + 1, 0);
    } else {
      EmptyFromSpec(g, i, j + 1);
      var rest := EmptyFrom(g, i, j + 1);
      if g[i][j] == Empty {
        var cells := [Pos(i, j)] + rest;
        assert EmptyFrom(g, i, j) == cells;
        forall a, b | 0 <= a < b < |cells| ensures Before(cells[a], cells[b]) {
          if a == 0 {
            assert cells[b] == rest[b - 1];
            assert cells[b] in rest;
          } else {
            assert cells[a] == rest[a - 1] && cells[b] == rest[b - 1];
          }
        }
      } else {
        assert EmptyFrom(g, i, j) == rest;
      }
    }
  }

  lemma EmptyFromAllEmpty(g: Grid)
    requires IsRect(g)
    ensures forall i: nat, j: nat :: AllEmpty(g, EmptyFrom(g, i, j))
  {
    forall i: nat, j: nat ensures AllEmpty(g, EmptyFrom(g, i, j)) {
      EmptyFromSpec(g, i, j);
      var cells := EmptyFrom(g, i, j);
      forall k | 0 <= k < |cells| ensures IsEmptyAt(g, cells[k]) {
        assert cells[k] in cells;
      }
    }
  }

  /** getEmptyCells lists exactly the EMPTY cells, each once, in strictly increasing row-major order. */
  lemma EmptyCellsSpec(g: Grid)
    requires IsRect(g)
    ensures forall p :: p in EmptyCells(g) <==> IsEmptyAt(g, p)
    ensures forall p :: p in EmptyCells(g) <==> p in EmptySet(g)
    ensures StrictlyRowMajor(EmptyCells(g))
    ensures forall a, b :: 0 <= a < |EmptyCells(g)| && 0 <= b < |EmptyCells(g)| && a != b ==> EmptyCells(g)[a] != EmptyCells(g)[b]
  {
    EmptyFromSpec(g, 0, 0);
    var cells := EmptyCells(g);
    forall a, b | 0 <= a < |cells| && 0 <= b < |cells| && a != b ensures cells[a] != cells[b] {
      if a < b {
        assert Before(cells[a], cells[b]);
      } else {
        assert Before(cells[b], cells[a]);
      }
    }
  }

  /** isBoardFull holds exactly when getEmptyCells finds nothing. */
  lemma FullIffNoEmptyCells(g: Grid)
    requires IsRect(g)
    ensures IsBoardFull(g) <==> EmptyCells(g) == []
    ensures IsBoardFull(g) <==> EmptySet(g) == {}
  {
    if !IsBoardFull(g) {
      var i, j :| 0 <= i < |g| && 0 <= j < |g[i]| && g[i][j] == Empty;
      var p := Pos(i, j);
      assert IsEmptyAt(g, p);
      assert p in EmptySet(g);
      EmptyCellsSpec(g);
      assert p in EmptyCells(g);
    }
    if EmptyCells(g) != [] {
      var p := EmptyCells(g)[0];
      assert IsEmptyAt(g, p);
      assert g[p.row][p.col] == Empty;
    }
    if EmptySet(g) != {} {
      var p :| p in EmptySet(g);
      assert g[p.row][p.col] == Empty;
    }
  }

  /** Placing a mark on an empty cell removes exactly that cell from the empty cells. */
  lemma PlaceShrinks(g: Grid, p: Pos, m: Mark)
    requires IsRect(g) && IsEmptyAt(g, p)
    ensures EmptySet(Place(g, p, Marked(m))) == EmptySet(g) - {p}
    ensures |EmptySet(Place(g, p, Marked(m)))| < |EmptySet(g)|
  {
    var r := Place(g, p, Marked(m));
    assert EmptySet(r) == EmptySet(g) - {p};
  }

  /** One turn of getEmptyCells's inner loop keeps the list found so far
      followed by the rest of the scan equal to the whole list. */
  lemma ScanCell(g: Grid, cells: seq<Pos>, i: nat, j: nat, c: Cell)
    requires IsRect(g) && i < |g| && j < Width(g) && c == g[i][j]
    requires cells + EmptyFrom(g, i, j) == EmptyCells(g)
    ensures (if c == Empty then cells + [Pos(i, j)] else cells) + EmptyFrom(g, i, j + 1) == EmptyCells(g)
  {
    EmptyFromStep(g, i, j);
    if g[i][j] == Empty {
      AppendAssoc(cells, [Pos(i, j)], EmptyFrom(g, i, j + 1));
    }
  }

  /** getEmptyCells: the nested row-by-row scan pushing each EMPTY cell. */
  method GetEmptyCells(b: array2<Cell>) returns (cells: seq<Pos>)
    ensures cells == EmptyCells(Snapshot(b))
    ensures forall p :: p in cells <==> IsEmptyAt(Snapshot(b), p)
    ensures StrictlyRowMajor(cells)
  {
    ghost var g := Snapshot(b);
    assert b.Length0 > 0 ==> Width(g) == b.Length1;
    cells := [];
    var i := 0;
    while i < b.Length0
      invariant 0 <= i <= b.Length0
      invariant cells + EmptyFrom(g, i, 0) == EmptyCells(g)
    {
      var j := 0;
      while j < b.Length1
        invariant 0 <= j <= b.Length1
        invariant cells + EmptyFrom(g, i, j) == EmptyCells(g)
      {
        var c := b[i, j];
        ScanCell(g, cells, i, j, c);
        if c == Empty {
          cells := cells + [Pos(i, j)];
        }
        j := j + 1;
      }
      EmptyFromStep(g, i, j);
      i := i + 1;
    }
    EmptyCellsSpec(g);
  }
}
