/** The computer's three strategies as functions of the board: a random empty
    cell, the block-or-attack heuristic, and depth-first minimax cut off by a
    clock budget.  The in-place methods of the game are proved equal to these. */
module Strategy {
  import opened Board
  import opened Scanner
  import opened Moves
  import opened Seqs

  /** The difficulty levels (EASY, MEDIUM and HARD of the game). */
  datatype Difficulty = Easy | Medium | Hard

  /** A minimax score: a finite number, or one of JavaScript's infinities. */
  datatype Score = NegInf | Fin(v: int) | PosInf

  /** The numeric order of scores (`<` on JavaScript numbers). */
  predicate Less(a: Score, b: Score) {
    match a
    case NegInf => !b.NegInf?
    case Fin(x) => (b.Fin? && x < b.v) || b.PosInf?
    case PosInf => false
  }

  function Max(a: Score, b: Score): Score {
    if Less(a, b) then b else a
  }

  function Min(a: Score, b: Score): Score {
    if Less(b, a) then b else a
  }

  /** Less is a strict total order. */
  lemma LessOrder()
    ensures forall a, b, c :: Less(a, b) && Less(b, c) ==> Less(a, c)
    ensures forall a, b :: !Less(a, b) && !Less(b, a) ==> a == b
    ensures forall a :: !Less(a, a)
  {
  }

  /** `Math.max(...s)`; Math.max of nothing is -Infinity. */
  function MaxOf(s: seq<Score>): (r: Score)
    ensures |s| == 0 ==> r == NegInf
    ensures |s| > 0 ==> r in s
  {
    LessOrder();
    if |s| == 0 then NegInf else Max(s[0], MaxOf(s[1..]))
  }

  /** `Math.min(...s)`; Math.min of nothing is Infinity. */
  function MinOf(s: seq<Score>): (r: Score)
    ensures |s| == 0 ==> r == PosInf
    ensures |s| > 0 ==> r in s
  {
    LessOrder();
    if |s| == 0 then PosInf else Min(s[0], MinOf(s[1..]))
  }

  /** Math.max and Math.min are extremal: no score of the list lies beyond them. */
  lemma {:induction false} MaxMinExtremal(s: seq<Score>)
    ensures forall x :: x in s ==> !Less(MaxOf(s), x) && !Less(x, MinOf(s))
  {
    LessOrder();
    if |s| > 0 {
      MaxMinExtremal(s[1..]);
      forall x | x in s ensures !Less(MaxOf(s), x) && !Less(x, MinOf(s)) {
        if x != s[0] {
          assert x in s[1..];
        }
      }
    }
  }

  /** minimax's last line: the maximum of the scores for the maximising side, the minimum otherwise. */
  function Aggregate(maximizing: bool, scores: seq<Score>): Score {
    if maximizing then MaxOf(scores) else MinOf(scores)
  }

  /** The values minimax can return: -1, 0, 1 or Infinity. */
  predicate InDomain(s: Score) {
    s == Fin(-1) || s == Fin(0) || s == Fin(1) || s == PosInf
  }

  // ---------------------------------------------------------------- Random

  /** getComputerMoveRandom with `Math.floor(Math.random() * n)` replaced by
      an oracle value `rand`: the cell at index rand % n of the empty cells, and
      nothing (JavaScript's undefined) when there is no empty cell. */
  ghost function RandomMove(g: Grid, rand: nat): Option<Pos>
    requires IsRect(g)
  {
    var cells := EmptyCells(g);
    if |cells| == 0 then None else Some(cells[rand % |cells|])
  }

  /** The random choice is an empty cell exactly when the board has one. */
  lemma RandomMoveSpec(g: Grid, rand: nat)
    requires IsRect(g)
    ensures RandomMove(g, rand).Some? <==> !IsBoardFull(g)
    ensures RandomMove(g, rand).Some? ==> IsEmptyAt(g, RandomMove(g, rand).value)
  {
    FullIffNoEmptyCells(g);
    var cells := EmptyCells(g);
    if |cells| > 0 {
      assert IsEmptyAt(g, cells[rand % |cells|]);
    }
  }

  /** Every empty cell can be chosen: oracle value k picks the k-th empty cell. */
  lemma RandomMoveCovers(g: Grid, k: nat)
    requires IsRect(g) && k < |EmptyCells(g)|
    ensures RandomMove(g, k) == Some(EmptyCells(g)[k])
  {
  }

  // ------------------------------------------------------ Block or attack

  /** p is on the board and placing mark m on it gives a winning line. */
  ghost predicate Completes(g: Grid, win: nat, p: Pos, m: Mark)
    requires IsRect(g)
  {
    InBounds(g, p) && HasWinningLine(Place(g, p, Marked(m)), win)
  }

  /** The empty cells where placing m gives a winning line. */
  ghost function Completing(g: Grid, win: nat, m: Mark): (s: set<Pos>)
    requires IsRect(g)
  {
    set p | p in EmptySet(g) && Completes(g, win, p, m)
  }

  /** The first of `cells` that lies in `hits`. */
  function FirstIn(cells: seq<Pos>, hits: set<Pos>): Option<Pos> {
    if |cells| == 0 then None
    else if cells[0] in hits then Some(cells[0])
    else FirstIn(cells[1..], hits)
  }

  lemma {:induction false} FirstInSpec(cells: seq<Pos>, hits: set<Pos>)
    ensures FirstIn(cells, hits).None? <==> forall a :: 0 <= a < |cells| ==> cells[a] !in hits
    ensures FirstIn(cells, hits).Some? ==>
      exists a :: 0 <= a < |cells| && FirstIn(cells, hits).value == cells[a] &&
        cells[a] in hits && forall a' :: 0 <= a' < a ==> cells[a'] !in hits
  {
    if |cells| > 0 && cells[0] !in hits {
      FirstInSpec(cells[1..], hits);
      var r := FirstIn(cells[1..], hits);
      if r.Some? {
        var a :| 0 <= a < |cells| - 1 && r.value == cells[1..][a] &&
          cells[1..][a] in hits && forall a' :: 0 <= a' < a ==> cells[1..][a'] !in hits;
        assert r.value == cells[a + 1];
        forall a' | 0 <= a' < a + 1 ensures cells[a'] !in hits {
          if a' > 0 {
            assert cells[a'] == cells[1..][a' - 1];
          }
        }
      } else {
        forall a | 0 <= a < |cells| ensures cells[a] !in hits {
          if a > 0 {
            assert cells[a] == cells[1..][a - 1];
          }
        }
      }
    }
  }

  /** One scan of the heuristic: the first of `cells` that is empty and where
      placing m gives a winning line. */
  ghost function FirstCompleting(g: Grid, win: nat, m: Mark, cells: seq<Pos>): Option<Pos>
    requires IsRect(g)
  {
    FirstIn(cells, Completing(g, win, m))
  }

  /** The scan of the heuristic over cell (i, j) of the row-major order. */
  lemma FirstCompletingFromStep(g: Grid, win: nat, m: Mark, i: nat, j: nat)
    requires IsRect(g) && i < |g|
    ensures j < Width(g) && g[i][j] == Empty && Completes(g, win, Pos(i, j), m) ==>
      FirstCompleting(g, win, m, EmptyFrom(g, i, j)) == Some(Pos(i, j))
    ensures j < Width(g) && !(g[i][j] == Empty && Completes(g, win, Pos(i, j), m)) ==>
      FirstCompleting(g, win, m, EmptyFrom(g, i, j)) == FirstCompleting(g, win, m, EmptyFrom(g, i, j + 1))
    ensures j >= Width(g) ==> FirstCompleting(g, win, m, EmptyFrom(g, i, j)) == FirstCompleting(g, win, m, EmptyFrom(g, i + 1, 0))
  {
    EmptyFromStep(g, i, j);
    if j < Width(g) && g[i][j] == Empty {
      var p := Pos(i, j);
      TailOfCons(p, EmptyFrom(g, i, j + 1));
      assert IsEmptyAt(g, p);
      assert p in Completing(g, win, m) <==> Completes(g, win, p, m);
    }
  }

  /** p is the row-major first empty cell where placing m gives a winning line. */
  ghost predicate FirstCompletingCell(g: Grid, win: nat, m: Mark, p: Pos)
    requires IsRect(g)
  {
    IsEmptyAt(g, p) && Completes(g, win, p, m) &&
    forall q :: IsEmptyAt(g, q) && Before(q, p) ==> !Completes(g, win, q, m)
  }

  /** A scan of the heuristic finds nothing exactly when no empty cell completes a line for m. */
  lemma FirstCompletingNone(g: Grid, win: nat, m: Mark)
    requires IsRect(g)
    ensures FirstCompleting(g, win, m, EmptyCells(g)).None? <==>
      forall q :: IsEmptyAt(g, q) ==> !Completes(g, win, q, m)
  {
    EmptyCellsSpec(g);
    var cells := EmptyCells(g);
    var hits := Completing(g, win, m);
    FirstInSpec(cells, hits);
    if FirstIn(cells, hits).None? {
      forall q | IsEmptyAt(g, q) ensures !Completes(g, win, q, m) {
        assert q in cells;
        var a :| 0 <= a < |cells| && cells[a] == q;
        assert q !in hits;
      }
    } else {
      var a :| 0 <= a < |cells| && cells[a] in hits;
      assert IsEmptyAt(g, cells[a]) && Completes(g, win, cells[a], m);
    }
  }

  /** What a scan of the heuristic finds is the row-major first empty cell completing a line for m. */
  lemma FirstCompletingFound(g: Grid, win: nat, m: Mark)
    requires IsRect(g) && FirstCompleting(g, win, m, EmptyCells(g)).Some?
    ensures FirstCompletingCell(g, win, m, FirstCompleting(g, win, m, EmptyCells(g)).value)
  {
    EmptyCellsSpec(g);
    var cells := EmptyCells(g);
    var hits := Completing(g, win, m);
    FirstInSpec(cells, hits);
    var r := FirstIn(cells, hits);
    var a :| 0 <= a < |cells| && r.value == cells[a] &&
      cells[a] in hits && forall a' :: 0 <= a' < a ==> cells[a'] !in hits;
    forall q | IsEmptyAt(g, q) && Before(q, r.value) ensures !Completes(g, win, q, m) {
      assert q in cells;
      var b :| 0 <= b < |cells| && cells[b] == q;
      assert b < a;
      assert q !in hits;
    }
  }

  /** getComputerMoveBlockAttack: first the cells where the non-bot mark would
      win, then the cells where the bot's mark would win, then a random cell. */
  ghost function BlockAttack(g: Grid, win: nat, bot: Mark, rand: nat): Option<Pos>
    requires IsRect(g)
  {
    var cells := EmptyCells(g);
    var first := FirstCompleting(g, win, Opponent(bot), cells);
    if first.Some? then first
    else
      var second := FirstCompleting(g, win, bot, cells);
      if second.Some? then second else RandomMove(g, rand)
  }

  /** The heuristic's order of return: the row-major first cell completing a
      line for the non-bot mark, else the first completing one for the bot,
      else the random choice; its result is an empty cell whenever one exists. */
  lemma BlockAttackSpec(g: Grid, win: nat, bot: Mark, rand: nat)
    requires IsRect(g)
    ensures var r := BlockAttack(g, win, bot, rand);
      && (r.Some? <==> !IsBoardFull(g))
      && (r.Some? ==> IsEmptyAt(g, r.value))
      && ((exists p :: IsEmptyAt(g, p) && Completes(g, win, p, Opponent(bot))) ==>
            r.Some? && FirstCompletingCell(g, win, Opponent(bot), r.value))
      && ((forall p :: IsEmptyAt(g, p) ==> !Completes(g, win, p, Opponent(bot))) &&
          (exists p :: IsEmptyAt(g, p) && Completes(g, win, p, bot)) ==>
            r.Some? && FirstCompletingCell(g, win, bot, r.value))
      && ((forall p :: IsEmptyAt(g, p) ==> !Completes(g, win, p, Opponent(bot)) && !Completes(g, win, p, bot)) ==>
            r == RandomMove(g, rand))
  {
    var cells := EmptyCells(g);
    FirstCompletingNone(g, win, Opponent(bot));
    FirstCompletingNone(g, win, bot);
    if FirstCompleting(g, win, Opponent(bot), cells).Some? {
      FirstCompletingFound(g, win, Opponent(bot));
    } else if FirstCompleting(g, win, bot, cells).Some? {
      FirstCompletingFound(g, win, bot);
    } else {
      RandomMoveSpec(g, rand);
    }
  }

  // --------------------------------------------------------------- Minimax

  /** The mark placed by the side to move: the bot when maximising, the other mark otherwise. */
  function Mover(bot: Mark, maximizing: bool): Mark {
    if maximizing then bot else Opponent(bot)
  }

  /** minimax with the wall clock replaced by a count of clock readings: `t`
      readings have been taken since the search started, a reading times out
      when t >= budget, and the result pairs the score with the new count. */
  ghost function Minimax(g: Grid, win: nat, bot: Mark, maximizing: bool, t: nat, budget: nat): (r: (Score, nat))
    requires IsRect(g)
    ensures r.1 >= t
    decreases |EmptySet(g)|, 2
  {
    if HasWinningLine(g, win) then (if maximizing then Fin(-1) else Fin(1), t)
    else if IsBoardFull(g) then (Fin(0), t)
    else
      FullIffNoEmptyCells(g);
      Expand(g, win, bot, maximizing, EmptyCells(g), 0, t, budget, [])
  }

  /** The child loop of minimax from the k-th empty cell on, with the scores
      pushed so far: read the clock (return Infinity on timeout), place the
      side's mark, score the child with the sides swapped, clear the cell. */
  ghost function Expand(g: Grid, win: nat, bot: Mark, maximizing: bool, cells: seq<Pos>, k: nat, t: nat, budget: nat,
                        scores: seq<Score>): (r: (Score, nat))
    requires IsRect(g) && AllEmpty(g, cells)
    requires 0 < |cells| && k <= |cells| && |scores| == k
    ensures r.1 >= t
    decreases |EmptySet(g)|, 1, |cells| - k
  {
    if k == |cells| then
      (Aggregate(maximizing, scores), t)
    else if t >= budget then
      (PosInf, t + 1)
    else
      var child := Child(g, win, bot, maximizing, cells[k], t + 1, budget);
      Expand(g, win, bot, maximizing, cells, k + 1, child.1, budget, scores + [child.0])
  }

  /** One child of the search: the side to move plays p, and minimax scores
      the position for the other side. */
  ghost function Child(g: Grid, win: nat, bot: Mark, maximizing: bool, p: Pos, t: nat, budget: nat): (r: (Score, nat))
    requires IsRect(g) && IsEmptyAt(g, p)
    ensures r.1 >= t
    decreases |EmptySet(g)|, 0
  {
    PlaceShrinks(g, p, Mover(bot, maximizing));
    Minimax(Place(g, p, Marked(Mover(bot, maximizing))), win, bot, !maximizing, t, budget)
  }

  /** The game value minimax approximates: the same recursion with no clock,
      the maximum of the children's values for the maximising side and the
      minimum for the minimising side. */
  ghost function Value(g: Grid, win: nat, bot: Mark, maximizing: bool): (v: Score)
    requires IsRect(g)
    decreases |EmptySet(g)|, 1
  {
    if HasWinningLine(g, win) then (if maximizing then Fin(-1) else Fin(1))
    else if IsBoardFull(g) then Fin(0)
    else
      FullIffNoEmptyCells(g);
      Aggregate(maximizing, ChildValues(g, win, bot, maximizing, EmptyCells(g), 0))
  }

  /** The values of the children reached by playing the side's mark on cells[k..]. */
  ghost function ChildValues(g: Grid, win: nat, bot: Mark, maximizing: bool, cells: seq<Pos>, k: nat): (vs: seq<Score>)
    requires IsRect(g) && AllEmpty(g, cells) && k <= |cells|
    ensures |vs| == |cells| - k
    decreases |EmptySet(g)|, 0, |cells| - k
  {
    if k == |cells| then []
    else
      PlaceShrinks(g, cells[k], Mover(bot, maximizing));
      [Value(Place(g, cells[k], Marked(Mover(bot, maximizing))), win, bot, !maximizing)] +
      ChildValues(g, win, bot, maximizing, cells, k + 1)
  }

  /** The game value is a win (1), a loss (-1) or a draw (0), never an infinity. */
  lemma {:induction false} ValueIsFinite(g: Grid, win: nat, bot: Mark, maximizing: bool)
    requires IsRect(g)
    ensures Value(g, win, bot, maximizing) in {Fin(-1), Fin(0), Fin(1)}
    decreases |EmptySet(g)|, 1
  {
    if !HasWinningLine(g, win) && !IsBoardFull(g) {
      FullIffNoEmptyCells(g);
      ChildValuesAreFinite(g, win, bot, maximizing, EmptyCells(g), 0);
    }
  }

  lemma {:induction false} ChildValuesAreFinite(g: Grid, win: nat, bot: Mark, maximizing: bool, cells: seq<Pos>, k: nat)
    requires IsRect(g) && AllEmpty(g, cells) && k <= |cells|
    ensures forall v :: v in ChildValues(g, win, bot, maximizing, cells, k) ==> v in {Fin(-1), Fin(0), Fin(1)}
    decreases |EmptySet(g)|, 0, |cells| - k
  {
    if k < |cells| {
      var m := Mover(bot, maximizing);
      PlaceShrinks(g, cells[k], m);
      ValueIsFinite(Place(g, cells[k], Marked(m)), win, bot, !maximizing);
      ChildValuesAreFinite(g, win, bot, maximizing, cells, k + 1);
    }
  }

  /** A search whose clock readings all stayed within the budget returns the game value. */
  lemma {:induction false} MinimaxWithinBudget(g: Grid, win: nat, bot: Mark, maximizing: bool, t: nat, budget: nat)
    requires IsRect(g) && Minimax(g, win, bot, maximizing, t, budget).1 <= budget
    ensures Minimax(g, win, bot, maximizing, t, budget).0 == Value(g, win, bot, maximizing)
    decreases |EmptySet(g)|, 2
  {
    if !HasWinningLine(g, win) && !IsBoardFull(g) {
      FullIffNoEmptyCells(g);
      ExpandWithinBudget(g, win, bot, maximizing, EmptyCells(g), 0, t, budget, []);
      AppendEmpty(ChildValues(g, win, bot, maximizing, EmptyCells(g), 0));
    }
  }

  lemma {:induction false} ExpandWithinBudget(g: Grid, win: nat, bot: Mark, maximizing: bool, cells: seq<Pos>, k: nat,
                                              t: nat, budget: nat, scores: seq<Score>)
    requires IsRect(g) && AllEmpty(g, cells)
    requires 0 < |cells| && k <= |cells| && |scores| == k
    requires Expand(g, win, bot, maximizing, cells, k, t, budget, scores).1 <= budget
    ensures var all := scores + ChildValues(g, win, bot, maximizing, cells, k);
      Expand(g, win, bot, maximizing, cells, k, t, budget, scores).0 == Aggregate(maximizing, all)
    decreases |EmptySet(g)|, 1, |cells| - k
  {
    if k == |cells| {
      AppendEmpty(scores);
    } else {
      var p := cells[k];
      var m := Mover(bot, maximizing);
      PlaceShrinks(g, p, m);
      var h := Place(g, p, Marked(m));
      assert t < budget;
      ExpandStep(g, win, bot, maximizing, cells, k, t, budget, scores);
      var child := Child(g, win, bot, maximizing, p, t + 1, budget);
      assert child == Minimax(h, win, bot, !maximizing, t + 1, budget);
      var rest := ChildValues(g, win, bot, maximizing, cells, k + 1);
      MinimaxWithinBudget(h, win, bot, !maximizing, t + 1, budget);
      assert ChildValues(g, win, bot, maximizing, cells, k) == [child.0] + rest;
      var e := Expand(g, win, bot, maximizing, cells, k + 1, child.1, budget, scores + [child.0]);
      assert child.1 <= e.1 <= budget;
      ExpandWithinBudget(g, win, bot, maximizing, cells, k + 1, child.1, budget, scores + [child.0]);
      AppendAssoc(scores, [child.0], rest);
    }
  }

  /** A position that is not over is scored by the child loop from its first empty cell. */
  lemma MinimaxExpands(g: Grid, win: nat, bot: Mark, maximizing: bool, t: nat, budget: nat)
    requires IsRect(g) && !HasWinningLine(g, win) && !IsBoardFull(g)
    ensures 0 < |EmptyCells(g)|
    ensures Minimax(g, win, bot, maximizing, t, budget) == Expand(g, win, bot, maximizing, EmptyCells(g), 0, t, budget, [])
  {
    FullIffNoEmptyCells(g);
  }

  /** The leaves of the search: a winning line scores -1 when the maximising
      side is to move and 1 otherwise, even on a full board, and a full board
      without one scores 0; neither reads the clock. */
  lemma MinimaxLeaves(g: Grid, win: nat, bot: Mark, maximizing: bool, t: nat, budget: nat)
    requires IsRect(g)
    ensures HasWinningLine(g, win) ==>
      Minimax(g, win, bot, maximizing, t, budget) == (if maximizing then Fin(-1) else Fin(1), t)
    ensures !HasWinningLine(g, win) && IsBoardFull(g) ==> Minimax(g, win, bot, maximizing, t, budget) == (Fin(0), t)
  {
  }

  /** One turn of the child loop that does not time out. */
  lemma ExpandStep(g: Grid, win: nat, bot: Mark, maximizing: bool, cells: seq<Pos>, k: nat, t: nat, budget: nat,
                   scores: seq<Score>)
    requires IsRect(g) && AllEmpty(g, cells)
    requires k < |cells| && |scores| == k && t < budget
    ensures var child := Child(g, win, bot, maximizing, cells[k], t + 1, budget);
      Expand(g, win, bot, maximizing, cells, k, t, budget, scores) ==
      Expand(g, win, bot, maximizing, cells, k + 1, child.1, budget, scores + [child.0])
  {
  }

  /** The timeout sentinel does not always reach the caller: when the last
      child of a minimising position times out, Math.min drops its Infinity
      in favour of any finite score already pushed. */
  lemma TimeoutMaskedByMin(g: Grid, win: nat, bot: Mark, cells: seq<Pos>, t: nat, budget: nat,
                           scores: seq<Score>, x: int)
    requires IsRect(g) && AllEmpty(g, cells) && 0 < |cells| && |scores| == |cells| - 1 && t < budget
    requires Child(g, win, bot, false, cells[|cells| - 1], t + 1, budget).0 == PosInf
    requires Fin(x) in scores
    ensures Expand(g, win, bot, false, cells, |cells| - 1, t, budget, scores).0 != PosInf
  {
    var k := |cells| - 1;
    ExpandStep(g, win, bot, false, cells, k, t, budget, scores);
    var all := scores + [PosInf];
    assert Fin(x) in all;
    MaxMinExtremal(all);
  }

  /** minimax only ever returns -1, 0, 1 or Infinity. */
  lemma {:induction false} MinimaxInDomain(g: Grid, win: nat, bot: Mark, maximizing: bool, t: nat, budget: nat)
    requires IsRect(g)
    ensures InDomain(Minimax(g, win, bot, maximizing, t, budget).0)
    decreases |EmptySet(g)|, 2
  {
    if !HasWinningLine(g, win) && !IsBoardFull(g) {
      FullIffNoEmptyCells(g);
      ExpandInDomain(g, win, bot, maximizing, EmptyCells(g), 0, t, budget, []);
    }
  }

  lemma {:induction false} ExpandInDomain(g: Grid, win: nat, bot: Mark, maximizing: bool, cells: seq<Pos>, k: nat,
                                          t: nat, budget: nat, scores: seq<Score>)
    requires IsRect(g) && AllEmpty(g, cells)
    requires 0 < |cells| && k <= |cells| && |scores| == k
    requires forall s :: s in scores ==> InDomain(s)
    ensures InDomain(Expand(g, win, bot, maximizing, cells, k, t, budget, scores).0)
    decreases |EmptySet(g)|, 1, |cells| - k
  {
    if k < |cells| && t < budget {
      var m := Mover(bot, maximizing);
      var h := Place(g, cells[k], Marked(m));
      PlaceShrinks(g, cells[k], m);
      ExpandStep(g, win, bot, maximizing, cells, k, t, budget, scores);
      var child := Child(g, win, bot, maximizing, cells[k], t + 1, budget);
      assert child == Minimax(h, win, bot, !maximizing, t + 1, budget);
      MinimaxInDomain(h, win, bot, !maximizing, t + 1, budget);
      ExpandInDomain(g, win, bot, maximizing, cells, k + 1, child.1, budget, scores + [child.0]);
    }
  }

  /** The scores getComputerMoveMinimax computes for the candidates from the
      k-th on: the bot's mark on the candidate, scored by minimax for the
      minimising side; the list stops after the first Infinity. */
  ghost function Scores(g: Grid, win: nat, bot: Mark, cells: seq<Pos>, k: nat, t: nat, budget: nat): (sc: seq<Score>)
    requires IsRect(g) && AllEmpty(g, cells) && k <= |cells|
    ensures |sc| <= |cells| - k
    decreases |cells| - k
  {
    if k == |cells| then []
    else
      var r := Child(g, win, bot, true, cells[k], t, budget);
      if r.0 == PosInf then [PosInf] else [r.0] + Scores(g, win, bot, cells, k + 1, r.1, budget)
  }

  /** The candidate scores are minimax values, and all candidates are
      scored unless one of them scores Infinity. */
  lemma {:induction false} ScoresSpec(g: Grid, win: nat, bot: Mark, cells: seq<Pos>, k: nat, t: nat, budget: nat)
    requires IsRect(g) && AllEmpty(g, cells) && k <= |cells|
    ensures var sc := Scores(g, win, bot, cells, k, t, budget);
      && (PosInf !in sc ==> |sc| == |cells| - k)
      && (forall s :: s in sc ==> InDomain(s))
    decreases |cells| - k
  {
    if k < |cells| {
      var r := Child(g, win, bot, true, cells[k], t, budget);
      MinimaxInDomain(Place(g, cells[k], Marked(bot)), win, bot, false, t, budget);
      if r.0 != PosInf {
        ScoresSpec(g, win, bot, cells, k + 1, r.1, budget);
      }
    }
  }

  /** One turn of the candidate loop: its score, and the rest of the list unless it is Infinity. */
  lemma ScoresStep(g: Grid, win: nat, bot: Mark, cells: seq<Pos>, k: nat, t: nat, budget: nat)
    requires IsRect(g) && AllEmpty(g, cells) && k < |cells|
    ensures var r := Child(g, win, bot, true, cells[k], t, budget);
      Scores(g, win, bot, cells, k, t, budget) ==
        if r.0 == PosInf then [PosInf] else [r.0] + Scores(g, win, bot, cells, k + 1, r.1, budget)
  {
  }

  /** The best score and move after the candidate loop has seen the scores `sc`:
      a candidate replaces the best only with a strictly greater score. */
  function FirstMax(cells: seq<Pos>, sc: seq<Score>): (Score, Option<Pos>)
    requires |sc| <= |cells|
  {
    if |sc| == 0 then (NegInf, None)
    else
      var prev := FirstMax(cells, sc[..|sc| - 1]);
      if Less(prev.0, sc[|sc| - 1]) then (sc[|sc| - 1], Some(cells[|sc| - 1])) else prev
  }

  /** One turn of the candidate loop's comparison (`score > bestMove.score`). */
  lemma FirstMaxStep(cells: seq<Pos>, sc: seq<Score>, s: Score)
    requires |sc| < |cells|
    ensures FirstMax(cells, sc + [s]) ==
      if Less(FirstMax(cells, sc).0, s) then (s, Some(cells[|sc|])) else FirstMax(cells, sc)
  {
    assert (sc + [s])[..|sc|] == sc;
  }

  /** First-found tie-breaking: the move kept is the first candidate with a
      maximal score; every earlier candidate scores strictly less, no later one more. */
  lemma {:induction false} FirstMaxSpec(cells: seq<Pos>, sc: seq<Score>)
    requires 0 < |sc| <= |cells|
    requires forall s :: s in sc ==> s != NegInf
    ensures exists m :: (0 <= m < |sc| && FirstMax(cells, sc) == (sc[m], Some(cells[m])) &&
      (forall a :: 0 <= a < m ==> Less(sc[a], sc[m])) &&
      (forall a :: m < a < |sc| ==> !Less(sc[m], sc[a])))
  {
    var n := |sc|;
    var init := sc[..n - 1];
    LessOrder();
    if n == 1 {
      assert sc[0] in sc;
      assert FirstMax(cells, init) == (NegInf, None);
      assert FirstMax(cells, sc) == (sc[0], Some(cells[0]));
    } else {
      assert forall s :: s in init ==> s in sc;
      FirstMaxSpec(cells, init);
      var m :| 0 <= m < |init| && FirstMax(cells, init) == (init[m], Some(cells[m])) &&
        (forall a :: 0 <= a < m ==> Less(init[a], init[m])) &&
        (forall a :: m < a < |init| ==> !Less(init[m], init[a]));
      if Less(sc[m], sc[n - 1]) {
        assert FirstMax(cells, sc) == (sc[n - 1], Some(cells[n - 1]));
        forall a | 0 <= a < n - 1 ensures Less(sc[a], sc[n - 1]) {
          assert init[a] == sc[a];
        }
      } else {
        assert FirstMax(cells, sc) == (sc[m], Some(cells[m]));
        forall a | 0 <= a < m ensures Less(sc[a], sc[m]) {
          assert init[a] == sc[a];
        }
        forall a | m < a < n ensures !Less(sc[m], sc[a]) {
          if a < n - 1 {
            assert init[a] == sc[a];
          }
        }
      }
    }
  }

  /** getComputerMoveMinimax: if any candidate scores Infinity the heuristic
      decides; otherwise the first candidate with the greatest score. */
  ghost function MinimaxMove(g: Grid, win: nat, bot: Mark, budget: nat, rand: nat): Option<Pos>
    requires IsRect(g)
  {
    var cells := EmptyCells(g);
    var sc := Scores(g, win, bot, cells, 0, 0, budget);
    if PosInf in sc then BlockAttack(g, win, bot, rand) else FirstMax(cells, sc).1
  }

  /** One turn of getComputerMoveMinimax's candidate loop, after the
      finite scores `done`: an Infinity ends the list, a finite score extends
      the scores seen. */
  lemma CandidateStep(g: Grid, win: nat, bot: Mark, budget: nat, cells: seq<Pos>, done: seq<Score>, k: nat, t: nat)
    requires IsRect(g) && AllEmpty(g, cells) && k < |cells| && |done| == k
    requires Scores(g, win, bot, cells, 0, 0, budget) == done + Scores(g, win, bot, cells, k, t, budget)
    ensures var r := Child(g, win, bot, true, cells[k], t, budget);
      && (r.0 == PosInf ==> PosInf in Scores(g, win, bot, cells, 0, 0, budget))
      && (r.0 != PosInf ==> (Scores(g, win, bot, cells, 0, 0, budget) ==
            (done + [r.0]) + Scores(g, win, bot, cells, k + 1, r.1, budget)))
  {
    ScoresStep(g, win, bot, cells, k, t, budget);
    var r := Child(g, win, bot, true, cells[k], t, budget);
    if r.0 == PosInf {
      var all := done + [PosInf];
      assert all[|done|] == PosInf;
    } else {
      AppendAssoc(done, [r.0], Scores(g, win, bot, cells, k + 1, r.1, budget));
    }
  }

  /** A candidate scoring Infinity hands the choice to the heuristic. */
  lemma MinimaxMoveTimedOut(g: Grid, win: nat, bot: Mark, budget: nat, rand: nat)
    requires IsRect(g) && PosInf in Scores(g, win, bot, EmptyCells(g), 0, 0, budget)
    ensures MinimaxMove(g, win, bot, budget, rand) == BlockAttack(g, win, bot, rand)
  {
  }

  /** With no candidate scoring Infinity, the move is the first best candidate. */
  lemma MinimaxMoveFinished(g: Grid, win: nat, bot: Mark, budget: nat, rand: nat)
    requires IsRect(g) && PosInf !in Scores(g, win, bot, EmptyCells(g), 0, 0, budget)
    ensures |Scores(g, win, bot, EmptyCells(g), 0, 0, budget)| == |EmptyCells(g)|
    ensures MinimaxMove(g, win, bot, budget, rand) == FirstMax(EmptyCells(g), Scores(g, win, bot, EmptyCells(g), 0, 0, budget)).1
  {
    ScoresSpec(g, win, bot, EmptyCells(g), 0, 0, budget);
  }

  /** The minimax move is an empty cell exactly when the board has one. */
  lemma MinimaxMoveSpec(g: Grid, win: nat, bot: Mark, budget: nat, rand: nat)
    requires IsRect(g)
    ensures MinimaxMove(g, win, bot, budget, rand).Some? <==> !IsBoardFull(g)
    ensures MinimaxMove(g, win, bot, budget, rand).Some? ==> IsEmptyAt(g, MinimaxMove(g, win, bot, budget, rand).value)
  {
    FullIffNoEmptyCells(g);
    var cells := EmptyCells(g);
    var sc := Scores(g, win, bot, cells, 0, 0, budget);
    if PosInf in sc {
      BlockAttackSpec(g, win, bot, rand);
    } else if |cells| > 0 {
      MinimaxMoveOrder(g, win, bot, budget, rand);
    } else {
      ScoresSpec(g, win, bot, cells, 0, 0, budget);
      assert sc == [];
    }
  }

  /** A timed-out search defers to the heuristic; otherwise the move is the
      first candidate with maximal score. */
  lemma MinimaxMoveOrder(g: Grid, win: nat, bot: Mark, budget: nat, rand: nat)
    requires IsRect(g)
    ensures PosInf !in Scores(g, win, bot, EmptyCells(g), 0, 0, budget) ==>
      |Scores(g, win, bot, EmptyCells(g), 0, 0, budget)| == |EmptyCells(g)|
    ensures var cells := EmptyCells(g);
      var sc := Scores(g, win, bot, cells, 0, 0, budget);
      && (PosInf in sc ==> MinimaxMove(g, win, bot, budget, rand) == BlockAttack(g, win, bot, rand))
      && (PosInf !in sc && |cells| > 0 ==>
            exists m :: (0 <= m < |cells| && MinimaxMove(g, win, bot, budget, rand) == Some(cells[m]) &&
              (forall a :: 0 <= a < m ==> Less(sc[a], sc[m])) &&
              (forall a :: m < a < |cells| ==> !Less(sc[m], sc[a]))))
  {
    var cells := EmptyCells(g);
    var sc := Scores(g, win, bot, cells, 0, 0, budget);
    ScoresSpec(g, win, bot, cells, 0, 0, budget);
    if PosInf !in sc && |cells| > 0 {
      assert forall s :: s in sc ==> s != NegInf;
      FirstMaxSpec(cells, sc);
    }
  }

  /** A clock reading past the budget on a board that is not over scores Infinity. */
  lemma MinimaxTimeout(g: Grid, win: nat, bot: Mark, maximizing: bool, t: nat, budget: nat)
    requires IsRect(g) && !Terminal(g, win) && t >= budget
    ensures Minimax(g, win, bot, maximizing, t, budget) == (PosInf, t + 1)
  {
    FullIffNoEmptyCells(g);
  }

  /** The budget cut-off falls back to the heuristic: with no time at all, a
      candidate whose board is not over scores Infinity, so the heuristic decides. */
  lemma {:induction false} ZeroBudgetScores(g: Grid, win: nat, bot: Mark, cells: seq<Pos>, k: nat, t: nat, c: nat)
    requires IsRect(g) && AllEmpty(g, cells) && k <= c < |cells|
    requires !Terminal(Place(g, cells[c], Marked(bot)), win)
    ensures PosInf in Scores(g, win, bot, cells, k, t, 0)
    decreases c - k
  {
    var r := Child(g, win, bot, true, cells[k], t, 0);
    if r.0 != PosInf {
      if k == c {
        MinimaxTimeout(Place(g, cells[k], Marked(bot)), win, bot, false, t, 0);
        assert false;
      }
      ZeroBudgetScores(g, win, bot, cells, k + 1, r.1, c);
    }
  }

  lemma MinimaxMoveZeroBudget(g: Grid, win: nat, bot: Mark, rand: nat, p: Pos)
    requires IsRect(g) && IsEmptyAt(g, p)
    requires !Terminal(Place(g, p, Marked(bot)), win)
    ensures MinimaxMove(g, win, bot, 0, rand) == BlockAttack(g, win, bot, rand)
  {
    EmptyCellsSpec(g);
    var cells := EmptyCells(g);
    assert p in cells;
    var c :| 0 <= c < |cells| && cells[c] == p;
    ZeroBudgetScores(g, win, bot, cells, 0, 0, c);
  }

  /** A board with a single empty cell: minimax returns that cell, whatever it scores. */
  lemma MinimaxMoveSingleCell(g: Grid, win: nat, bot: Mark, budget: nat, rand: nat, p: Pos)
    requires IsRect(g) && EmptySet(g) == {p}
    ensures MinimaxMove(g, win, bot, budget, rand) == Some(p)
  {
    MinimaxMoveSpec(g, win, bot, budget, rand);
  }

  // -------------------------------------------------------------- Dispatch

  /** computerMove's table from difficulty to strategy. */
  ghost function Choose(level: Difficulty, g: Grid, win: nat, bot: Mark, budget: nat, rand: nat): Option<Pos>
    requires IsRect(g)
  {
    match level
    case Easy => RandomMove(g, rand)
    case Medium => BlockAttack(g, win, bot, rand)
    case Hard => MinimaxMove(g, win, bot, budget, rand)
  }

  /** Every strategy returns an empty cell exactly when the board has one. */
  lemma ChooseSpec(level: Difficulty, g: Grid, win: nat, bot: Mark, budget: nat, rand: nat)
    requires IsRect(g)
    ensures Choose(level, g, win, bot, budget, rand).Some? <==> !IsBoardFull(g)
    ensures Choose(level, g, win, bot, budget, rand).Some? ==> IsEmptyAt(g, Choose(level, g, win, bot, budget, rand).value)
  {
    FullIffNoEmptyCells(g);
    match level
    case Easy => RandomMoveSpec(g, rand);
    case Medium => BlockAttackSpec(g, win, bot, rand);
    case Hard => MinimaxMoveSpec(g, win, bot, budget, rand);
  }
}
