/** The session of the game: the configuration check of initGame, the click
    state machine as a function of the board and the two player fields, and
    the game object whose methods update the board array and those fields in
    place, each proved equal to its specification. */
module Game {
  import opened Board
  import opened Scanner
  import opened Moves
  import opened Strategy
  import opened Seqs

  /** Why initGame refused a configuration: the board size, or the win length. */
  datatype ConfigError = BadDimensions | BadWin

  /** isBadInt on integers: the value lies outside [min, max]. */
  predicate IsBadInt(value: int, min: int, max: int) {
    value < min || value > max
  }

  function MinInt(a: int, b: int): int {
    if a <= b then a else b
  }

  /** The validation branch of initGame: both sizes in 3..30, then the win
      length in 3..min(rows, columns). */
  function Validate(rows: int, columns: int, win: int): (r: Option<ConfigError>)
    ensures r == None <==> 3 <= rows <= 30 && 3 <= columns <= 30 && 3 <= win && win <= rows && win <= columns
    ensures r == Some(BadDimensions) <==> !(3 <= rows <= 30 && 3 <= columns <= 30)
    ensures r == Some(BadWin) <==> 3 <= rows <= 30 && 3 <= columns <= 30 && (win < 3 || win > rows || win > columns)
  {
    var min := MinInt(rows, columns);
    if IsBadInt(rows, 3, 30) || IsBadInt(columns, 3, 30) then Some(BadDimensions)
    else if IsBadInt(win, 3, min) then Some(BadWin)
    else None
  }

  /** The globals cellClick and isGameOver work on: the board, currentPlayer and bot. */
  datatype Session = Session(board: Grid, current: Mark, bot: Mark)

  /** isGameOver's side effect on a finished game: currentPlayer flips and
      bot becomes the mark that is not the new currentPlayer. */
  function Flip(s: Session): (r: Session)
    ensures r.board == s.board && r.current == Opponent(s.current) && r.bot == Opponent(r.current)
  {
    Session(s.board, Opponent(s.current), s.current)
  }

  /** A third game-over flip undoes the second, and two flips give the
      session back exactly when bot is the other mark than currentPlayer. */
  lemma FlipTwice(s: Session)
    ensures Flip(Flip(Flip(s))) == Flip(s)
    ensures s.bot == Opponent(s.current) <==> Flip(Flip(s)) == s
  {
  }

  /** cellClick(row, col) and the computer replies it triggers.  A click on
      an EMPTY cell of a finished game only runs isGameOver's flip. */
  ghost function Click(s: Session, win: nat, p: Pos, level: Difficulty, budget: nat, rand: nat): (r: Session)
    requires IsRect(s.board) && InBounds(s.board, p)
    ensures IsRect(r.board) && |r.board| == |s.board| && Width(r.board) == Width(s.board)
    ensures forall i, j :: 0 <= i < |s.board| && 0 <= j < Width(s.board) && s.board[i][j] != Empty ==>
      r.board[i][j] == s.board[i][j]
    decreases |EmptySet(s.board)|, 0
  {
    if s.board[p.row][p.col] != Empty then s
    else if Terminal(s.board, win) then Flip(s)
    else
      PlaceShrinks(s.board, p, s.current);
      var placed := Session(Place(s.board, p, Marked(s.current)), s.current, s.bot);
      if Terminal(placed.board, win) then Flip(placed)
      else
        var toggled := placed.(current := Opponent(placed.current));
        if toggled.current == toggled.bot then ComputerMoveSpec(toggled, win, level, budget, rand) else toggled
  }

  /** computerMove: the strategy of the level picks an empty cell, which is then clicked. */
  ghost function ComputerMoveSpec(s: Session, win: nat, level: Difficulty, budget: nat, rand: nat): (r: Session)
    requires IsRect(s.board) && !IsBoardFull(s.board)
    ensures IsRect(r.board) && |r.board| == |s.board| && Width(r.board) == Width(s.board)
    ensures forall i, j :: 0 <= i < |s.board| && 0 <= j < Width(s.board) && s.board[i][j] != Empty ==>
      r.board[i][j] == s.board[i][j]
    decreases |EmptySet(s.board)|, 1
  {
    ChooseSpec(level, s.board, win, s.bot, budget, rand);
    var p := Choose(level, s.board, win, s.bot, budget, rand).value;
    Click(s, win, p, level, budget, rand)
  }

  /** A click on an occupied cell changes nothing; a click on an EMPTY cell of
      a finished game flips the players and leaves the board alone. */
  lemma ClickIgnored(s: Session, win: nat, p: Pos, level: Difficulty, budget: nat, rand: nat)
    requires IsRect(s.board) && InBounds(s.board, p)
    ensures s.board[p.row][p.col] != Empty ==> Click(s, win, p, level, budget, rand) == s
    ensures s.board[p.row][p.col] == Empty && Terminal(s.board, win) ==>
      Click(s, win, p, level, budget, rand) == Session(s.board, Opponent(s.current), s.current)
  {
  }

  /** A move on an EMPTY cell of an unfinished game whose players differ: the
      player's mark goes on the cell; if that ends the game the players flip,
      otherwise the bot answers on the cell its strategy picks and it is the
      same player's turn again. */
  lemma ClickTurn(s: Session, win: nat, p: Pos, level: Difficulty, budget: nat, rand: nat)
    requires IsRect(s.board) && IsEmptyAt(s.board, p) && !Terminal(s.board, win)
    requires s.bot == Opponent(s.current)
    ensures var placed := Place(s.board, p, Marked(s.current));
      var r := Click(s, win, p, level, budget, rand);
      && (Terminal(placed, win) ==> r == Session(placed, s.bot, s.current))
      && (!Terminal(placed, win) ==>
            r.current == s.current && r.bot == s.bot &&
            exists q :: IsEmptyAt(placed, q) && Choose(level, placed, win, s.bot, budget, rand) == Some(q) &&
              r.board == Place(placed, q, Marked(s.bot)))
  {
    var placed := Place(s.board, p, Marked(s.current));
    if !Terminal(placed, win) {
      var toggled := Session(placed, s.bot, s.bot);
      assert Click(s, win, p, level, budget, rand) == ComputerMoveSpec(toggled, win, level, budget, rand);
      ChooseSpec(level, placed, win, s.bot, budget, rand);
      var q := Choose(level, placed, win, s.bot, budget, rand).value;
      assert IsEmptyAt(placed, q);
      var after := Place(placed, q, Marked(s.bot));
      if Terminal(after, win) {
        assert Click(toggled, win, q, level, budget, rand) == Flip(Session(after, s.bot, s.bot));
      } else {
        assert Click(toggled, win, q, level, budget, rand) == Session(after, s.current, s.bot);
      }
    }
  }

  /** A click keeps bot the other mark than currentPlayer, so the
      precondition of ClickTurn holds for the whole game once it holds at
      the start (X against O). */
  lemma ClickKeepsRoles(s: Session, win: nat, p: Pos, level: Difficulty, budget: nat, rand: nat)
    requires IsRect(s.board) && InBounds(s.board, p) && s.bot == Opponent(s.current)
    ensures var r := Click(s, win, p, level, budget, rand); r.bot == Opponent(r.current)
  {
    if s.board[p.row][p.col] == Empty && !Terminal(s.board, win) {
      ClickTurn(s, win, p, level, budget, rand);
    } else {
      ClickIgnored(s, win, p, level, budget, rand);
    }
  }

  /** The page script's state: the board array and the globals beside it. */
  class Page {
    var board: array2?<Cell>
    var rows: int
    var columns: int
    var win: nat
    var difficulty: Difficulty
    var currentPlayer: Mark
    var bot: Mark

    /** The initial values of the globals; there is no board before initGame. */
    constructor ()
      ensures board == null && win == 3 && difficulty == Hard && currentPlayer == X && bot == O
    {
      board := null;
      rows, columns := 0, 0;
      win := 3;
      difficulty := Hard;
      currentPlayer, bot := X, O;
    }

    /** A board exists and has a first row (checkWinner reads board[0].length). */
    ghost predicate Ready()
      reads this
    {
      board != null && board.Length0 > 0
    }

    ghost function State(): Session
      reads this, board
      requires board != null
    {
      Session(Snapshot(board), currentPlayer, bot)
    }

    /** updateDifficulty without the slider: the level the computer plays at. */
    method SetDifficulty(level: Difficulty)
      modifies this`difficulty
      ensures difficulty == level
    {
      difficulty := level;
    }

    /** initGame: a new all-EMPTY rows-by-columns board when the configuration
        is valid; otherwise the error and nothing else changes. */
    method InitGame(r: int, c: int, w: int) returns (error: Option<ConfigError>)
      modifies this
      ensures error == Validate(r, c, w)
      ensures currentPlayer == old(currentPlayer) && bot == old(bot) && difficulty == old(difficulty)
      ensures error.Some? ==> board == old(board) && rows == old(rows) && columns == old(columns) && win == old(win)
      ensures error.None? ==> (board != null && fresh(board) && Ready() && rows == r && columns == c && win == w &&
        board.Length0 == r && board.Length1 == c &&
        forall i, j :: 0 <= i < r && 0 <= j < c ==> board[i, j] == Empty)
    {
      error := Validate(r, c, w);
      if error.None? {
        rows, columns, win := r, c, w;
        board := CreateTwoDimensionalArray(r, c, Empty);
      }
    }

    /** isGameOver: checkWinner or isBoardFull; when the game is over it
        flips currentPlayer and makes bot the other mark. */
    method IsGameOver() returns (over: bool)
      requires Ready()
      modifies this`currentPlayer, this`bot
      ensures over == Terminal(Snapshot(board), win)
      ensures State() == if over then Flip(old(State())) else old(State())
    {
      var won := CheckWinner(board, win);
      over := won || IsBoardFull(Snapshot(board));
      if over {
        currentPlayer := Opponent(currentPlayer);
        bot := Opponent(currentPlayer);
      }
    }

    /** cellClick(row, col). */
    method CellClick(row: nat, col: nat, budget: nat, rand: nat)
      requires Ready() && row < board.Length0 && col < board.Length1
      modifies this`currentPlayer, this`bot, board
      ensures State() == Click(old(State()), win, Pos(row, col), difficulty, budget, rand)
      decreases |EmptySet(Snapshot(board))|, 0
    {
      if board[row, col] != Empty {
        return;
      }
      var over := IsGameOver();
      if over {
        return;
      }
      ghost var g := Snapshot(board);
      SetCell(board, Pos(row, col), Marked(currentPlayer));
      PlaceShrinks(g, Pos(row, col), currentPlayer);
      over := IsGameOver();
      if !over {
        currentPlayer := Opponent(currentPlayer);
        if currentPlayer == bot {
          ComputerMove(budget, rand);
        }
      }
    }

    /** computerMove: ask the strategy of the current level for a cell and click it. */
    method ComputerMove(budget: nat, rand: nat)
      requires Ready() && !IsBoardFull(Snapshot(board))
      modifies this`currentPlayer, this`bot, board
      ensures State() == ComputerMoveSpec(old(State()), win, difficulty, budget, rand)
      decreases |EmptySet(Snapshot(board))|, 1
    {
      var move: Option<Pos>;
      match difficulty {
        case Easy => move := GetComputerMoveRandom(rand);
        case Medium => move := GetComputerMoveBlockAttack(rand);
        case Hard => move := GetComputerMoveMinimax(budget, rand);
      }
      ChooseSpec(difficulty, Snapshot(board), win, bot, budget, rand);
      CellClick(move.value.row, move.value.col, budget, rand);
    }

    /** getComputerMoveRandom: the empty cell at index rand % n of the n empty
        cells, and nothing when there is none. */
    method GetComputerMoveRandom(rand: nat) returns (move: Option<Pos>)
      requires board != null
      ensures move == RandomMove(Snapshot(board), rand)
    {
      var cells := GetEmptyCells(board);
      if |cells| == 0 {
        move := None;
      } else {
        move := Some(cells[rand % |cells|]);
      }
    }

    /** Put mark m on the EMPTY cell p, ask checkWinner, and clear the cell again. */
    method TryWin(p: Pos, m: Mark) returns (won: bool)
      requires Ready() && IsEmptyAt(Snapshot(board), p)
      modifies board
      ensures Snapshot(board) == old(Snapshot(board))
      ensures won == Completes(Snapshot(board), win, p, m)
    {
      ghost var g := Snapshot(board);
      SetCell(board, p, Marked(m));
      won := CheckWinner(board, win);
      SetCell(board, p, Empty);
      PlaceThenClear(g, p, Marked(m));
    }

    /** One scan of getComputerMoveBlockAttack: try mark m on every EMPTY
        cell in row-major order, undoing each try, and stop at the first that
        makes checkWinner true. */
    method FirstWinningCell(m: Mark) returns (found: Option<Pos>)
      requires Ready()
      modifies board
      ensures Snapshot(board) == old(Snapshot(board))
      ensures found == FirstCompleting(Snapshot(board), win, m, EmptyCells(Snapshot(board)))
    {
      ghost var g := Snapshot(board);
      assert Width(g) == board.Length1;
      var i := 0;
      while i < board.Length0
        invariant 0 <= i <= board.Length0
        invariant Snapshot(board) == g
        invariant FirstCompleting(g, win, m, EmptyFrom(g, i, 0)) == FirstCompleting(g, win, m, EmptyCells(g))
      {
        var j := 0;
        while j < board.Length1
          invariant 0 <= j <= board.Length1
          invariant Snapshot(board) == g
          invariant FirstCompleting(g, win, m, EmptyFrom(g, i, j)) == FirstCompleting(g, win, m, EmptyCells(g))
        {
          FirstCompletingFromStep(g, win, m, i, j);
          if board[i, j] == Empty {
            var p := Pos(i, j);
            var won := TryWin(p, m);
            if won {
              return Some(p);
            }
          }
          j := j + 1;
        }
        FirstCompletingFromStep(g, win, m, i, j);
        i := i + 1;
      }
      return None;
    }

    /** getComputerMoveBlockAttack: the scan with the non-bot mark, then the
        scan with the bot's mark, then the random choice. */
    method GetComputerMoveBlockAttack(rand: nat) returns (move: Option<Pos>)
      requires Ready()
      modifies board
      ensures Snapshot(board) == old(Snapshot(board))
      ensures move == BlockAttack(Snapshot(board), win, bot, rand)
    {
      var player := Opponent(bot);
      move := FirstWinningCell(player);
      if move.Some? {
        return;
      }
      move := FirstWinningCell(bot);
      if move.Some? {
        return;
      }
      move := GetComputerMoveRandom(rand);
    }

    /** Put the mark of the side to move on the EMPTY cell p, score the
        position with minimax for the other side, and clear the cell again
        (`board[i][j] = EMPTY`). */
    method TryMove(p: Pos, maximizing: bool, t: nat, budget: nat) returns (score: Score, clock: nat)
      requires Ready() && IsEmptyAt(Snapshot(board), p)
      modifies board
      ensures Snapshot(board) == old(Snapshot(board))
      ensures (score, clock) == Child(Snapshot(board), win, bot, maximizing, p, t, budget)
      decreases |EmptySet(Snapshot(board))|, 0
    {
      ghost var g := Snapshot(board);
      var mark := Mover(bot, maximizing);
      SetCell(board, p, Marked(mark));
      PlaceShrinks(g, p, mark);
      score, clock := Minimax(!maximizing, t, budget);
      SetCell(board, p, Empty);
      PlaceThenClear(g, p, Marked(mark));
    }

    /** minimax: `clock` is the count of clock readings after the search. */
    method Minimax(maximizing: bool, t: nat, budget: nat) returns (score: Score, clock: nat)
      requires Ready()
      modifies board
      ensures Snapshot(board) == old(Snapshot(board))
      ensures (score, clock) == Strategy.Minimax(Snapshot(board), win, bot, maximizing, t, budget)
      decreases |EmptySet(Snapshot(board))|, 2
    {
      ghost var g := Snapshot(board);
      var won := CheckWinner(board, win);
      if won {
        return if maximizing then Fin(-1) else Fin(1), t;
      }
      if IsBoardFull(Snapshot(board)) {
        return Fin(0), t;
      }
      MinimaxExpands(g, win, bot, maximizing, t, budget);
      var cells := GetEmptyCells(board);
      score, clock := ExpandChildren(maximizing, cells, t, budget);
    }

    /** The child loop of minimax: for each empty cell read the clock,
        returning Infinity on timeout, score the child, and collect the scores
        for Math.max or Math.min. */
    method ExpandChildren(maximizing: bool, cells: seq<Pos>, t: nat, budget: nat) returns (score: Score, clock: nat)
      requires Ready() && cells == EmptyCells(Snapshot(board)) && 0 < |cells|
      modifies board
      ensures Snapshot(board) == old(Snapshot(board))
      ensures (score, clock) == Expand(Snapshot(board), win, bot, maximizing, cells, 0, t, budget, [])
      decreases |EmptySet(Snapshot(board))|, 1
    {
      ghost var g := Snapshot(board);
      var scores: seq<Score> := [];
      clock := t;
      var k := 0;
      while k < |cells|
        invariant 0 <= k <= |cells| && |scores| == k
        invariant Snapshot(board) == g
        invariant Expand(g, win, bot, maximizing, cells, 0, t, budget, []) ==
          Expand(g, win, bot, maximizing, cells, k, clock, budget, scores)
      {
        if clock >= budget {
          return PosInf, clock + 1;
        }
        var p := cells[k];
        var s, c := TryMove(p, maximizing, clock + 1, budget);
        ExpandStep(g, win, bot, maximizing, cells, k, clock, budget, scores);
        scores := scores + [s];
        clock := c;
        k := k + 1;
      }
      score := if maximizing then MaxOf(scores) else MinOf(scores);
      assert score == Aggregate(maximizing, scores);
    }

    /** The candidate loop of getComputerMoveMinimax: score each empty cell
        with the bot's mark on it, keep the first strictly better one, and
        stop at the first Infinity. */
    method ScoreCandidates(cells: seq<Pos>, budget: nat) returns (move: Option<Pos>, timedOut: bool)
      requires Ready() && AllEmpty(Snapshot(board), cells)
      modifies board
      ensures Snapshot(board) == old(Snapshot(board))
      ensures timedOut <==> PosInf in Scores(Snapshot(board), win, bot, cells, 0, 0, budget)
      ensures !timedOut ==> move == FirstMax(cells, Scores(Snapshot(board), win, bot, cells, 0, 0, budget)).1
    {
      ghost var g := Snapshot(board);
      ghost var all := Scores(g, win, bot, cells, 0, 0, budget);
      var best := NegInf;
      move := None;
      var clock := 0;
      ghost var done: seq<Score> := [];
      for k := 0 to |cells|
        invariant Snapshot(board) == g
        invariant |done| == k && PosInf !in done
        invariant all == done + Scores(g, win, bot, cells, k, clock, budget)
        invariant (best, move) == FirstMax(cells, done)
      {
        var p := cells[k];
        var score, c := TryMove(p, true, clock, budget);
        CandidateStep(g, win, bot, budget, cells, done, k, clock);
        if score == PosInf {
          return move, true;
        }
        FirstMaxStep(cells, done, score);
        if Less(best, score) {
          best := score;
          move := Some(p);
        }
        done := done + [score];
        clock := c;
      }
      AppendEmpty(done);
      timedOut := false;
    }

    /** getComputerMoveMinimax: an Infinity among the candidates' scores
        hands the choice to the heuristic, otherwise the first best candidate. */
    method GetComputerMoveMinimax(budget: nat, rand: nat) returns (move: Option<Pos>)
      requires Ready()
      modifies board
      ensures Snapshot(board) == old(Snapshot(board))
      ensures move == MinimaxMove(Snapshot(board), win, bot, budget, rand)
    {
      ghost var g := Snapshot(board);
      var cells := GetEmptyCells(board);
      var timedOut;
      move, timedOut := ScoreCandidates(cells, budget);
      if timedOut {
        move := GetComputerMoveBlockAttack(rand);
      } else {
        MinimaxMoveFinished(g, win, bot, budget, rand);
      }
    }
  }
}
