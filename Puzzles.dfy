/** The puzzle interface the solver and the controller use: `is_solved`,
    `extensions`, `is_valid`, `move`, `__eq__` and `hint_generator`, over the
    two kinds of puzzle in PuzzleGames. The base class `Puzzle` becomes a sum
    of the two kinds; each operation dispatches to the module of its kind.
    The dictionary of the word ladder is the parameter `words`. */
module Puzzles {
  import opened Common
  import Sudoku
  import WordLadder

  datatype Puzzle = SudokuPuzzle(grid: Sudoku.Grid) | LadderPuzzle(state: WordLadder.State)

  /** Sudoku grids are square with a side of 4, 9, 16 or 25. */
  predicate Valid(p: Puzzle)
  {
    p.SudokuPuzzle? ==> Sudoku.WellFormed(p.grid)
  }

  predicate IsSolved(words: seq<string>, p: Puzzle)
    requires Valid(p)
  {
    match p
    case SudokuPuzzle(g) => Sudoku.IsSolved(g)
    case LadderPuzzle(st) => WordLadder.IsSolved(words, st)
  }

  /** The measure on which the exhaustive search terminates: the empty cells
      of a grid, the unused dictionary words of a ladder. */
  function Rank(words: seq<string>, p: Puzzle): nat
  {
    match p
    case SudokuPuzzle(g) => Sudoku.EmptyCells(g)
    case LadderPuzzle(st) => WordLadder.Rank(words, st)
  }

  function WrapGrids(hs: seq<Sudoku.Grid>): (ps: seq<Puzzle>)
    ensures |ps| == |hs| && forall k :: 0 <= k < |hs| ==> ps[k] == SudokuPuzzle(hs[k])
    ensures forall q :: q in ps ==> q.SudokuPuzzle? && q.grid in hs
  {
    if hs == [] then [] else [SudokuPuzzle(hs[0])] + WrapGrids(hs[1..])
  }

  function WrapStates(sts: seq<WordLadder.State>): (ps: seq<Puzzle>)
    ensures |ps| == |sts| && forall k :: 0 <= k < |sts| ==> ps[k] == LadderPuzzle(sts[k])
    ensures forall q :: q in ps ==> q.LadderPuzzle? && q.state in sts
  {
    if sts == [] then [] else [LadderPuzzle(sts[0])] + WrapStates(sts[1..])
  }

  /** `extensions`: the children of a puzzle, of its own kind, each valid
      and of lower rank. */
  function Extensions(words: seq<string>, p: Puzzle): (children: seq<Puzzle>)
    requires Valid(p)
    ensures forall q :: q in children ==> Valid(q) && Rank(words, q) < Rank(words, p)
    ensures forall q :: q in children ==> q.SudokuPuzzle? == p.SudokuPuzzle?
  {
    match p
    case SudokuPuzzle(g) =>
      Sudoku.ExtensionsDecrease(g);
      WrapGrids(Sudoku.Extensions(g))
    case LadderPuzzle(st) =>
      WordLadder.ExtensionsDecrease(words, st);
      WrapStates(WordLadder.Extensions(words, st))
  }

  /** `is_valid`: Sudoku raises IndexError on a text with no token or with
      a single numeric one; the word ladder never raises. */
  function IsValid(words: seq<string>, p: Puzzle, text: string): Result<bool>
    requires Valid(p)
  {
    match p
    case SudokuPuzzle(g) => Sudoku.IsValid(g, text)
    case LadderPuzzle(st) => Ok(WordLadder.IsValid(words, st, text))
  }

  /** `move`: the new puzzle, or the exception. */
  function Move(words: seq<string>, p: Puzzle, text: string): Result<Puzzle>
    requires Valid(p)
  {
    match p
    case SudokuPuzzle(g) =>
      (match Sudoku.Move(g, text)
       case Ok(h) => Ok(SudokuPuzzle(h))
       case Raise(e) => Raise(e))
    case LadderPuzzle(st) =>
      (match WordLadder.Move(words, st, text)
       case Ok(next) => Ok(LadderPuzzle(next))
       case Raise(e) => Raise(e))
  }

  /** For both kinds `move` succeeds exactly when `is_valid` says True, and
      raises ValueError exactly when it says False. */
  lemma MoveAgreesWithIsValid(words: seq<string>, p: Puzzle, text: string)
    requires Valid(p)
    ensures Move(words, p, text).Ok? <==> IsValid(words, p, text) == Ok(true)
    ensures Move(words, p, text) == Raise(ValueError) <==> IsValid(words, p, text) == Ok(false)
  {
    if p.SudokuPuzzle? {
      Sudoku.MoveAgreesWithIsValid(p.grid, text);
    }
  }

  /** A move keeps the kind and the validity of the puzzle and lowers its
      rank. */
  lemma MoveDecreasesRank(words: seq<string>, p: Puzzle, text: string)
    requires Valid(p) && Move(words, p, text).Ok?
    ensures var q := Move(words, p, text).value;
      Valid(q) && q.SudokuPuzzle? == p.SudokuPuzzle? && Rank(words, q) < Rank(words, p)
  {
    match p
    case SudokuPuzzle(g) =>
      Sudoku.MoveFillsOneCell(g, text);
    case LadderPuzzle(st) =>
      WordLadder.MoveDecreasesRank(words, st, text);
  }

  /** `__eq__`: the comparison of the kind's own method; comparing puzzles
      of different kinds reads a field the other kind does not have. */
  function Equal(p: Puzzle, q: Puzzle): (r: Result<bool>)
    requires Valid(p) && Valid(q)
    ensures r.Raise? <==> p.SudokuPuzzle? != q.SudokuPuzzle?
    ensures r.Raise? ==> r.error == AttributeError
  {
    if p.SudokuPuzzle? && q.SudokuPuzzle? then Ok(Sudoku.Equal(p.grid, q.grid))
    else if p.LadderPuzzle? && q.LadderPuzzle? then Ok(WordLadder.Equal(p.state, q.state))
    else Raise(AttributeError)
  }

  /** Between puzzles of one kind `__eq__` is equality. */
  lemma EqualIsEquality(p: Puzzle, q: Puzzle)
    requires Valid(p) && Valid(q) && p.SudokuPuzzle? == q.SudokuPuzzle?
    ensures Equal(p, q) == Ok(p == q)
  {
    if p.SudokuPuzzle? {
      Sudoku.EqualIsEquality(p.grid, q.grid);
    } else {
      WordLadder.EqualIsEquality(p.state, q.state);
    }
  }

  /** `hint_generator`. */
  function Hint(p: Puzzle, q: Puzzle): (r: Result<string>)
    requires Valid(p)
    ensures p.SudokuPuzzle? != q.SudokuPuzzle? ==> r == Raise(AttributeError)
  {
    if p.SudokuPuzzle? && q.SudokuPuzzle? then Sudoku.Hint(p.grid, q.grid)
    else if p.LadderPuzzle? && q.LadderPuzzle? then WordLadder.Hint(p.state, q.state)
    else Raise(AttributeError)
  }

  /** For either kind, the hint towards an extension is a valid move whose
      result is that extension. */
  lemma HintRoundTrip(words: seq<string>, p: Puzzle, q: Puzzle)
    requires Valid(p) && q in Extensions(words, p)
    ensures Hint(p, q).Ok? && IsValid(words, p, Hint(p, q).value) == Ok(true)
    ensures Move(words, p, Hint(p, q).value) == Ok(q)
  {
    match p
    case SudokuPuzzle(g) =>
      var hs := Sudoku.Extensions(g);
      var k :| 0 <= k < |hs| && q == SudokuPuzzle(hs[k]);
      assert hs[k] in hs;
      Sudoku.HintRoundTrip(g, hs[k]);
    case LadderPuzzle(st) =>
      var sts := WordLadder.Extensions(words, st);
      var k :| 0 <= k < |sts| && q == LadderPuzzle(sts[k]);
      assert sts[k] in sts;
      WordLadder.HintRoundTrip(words, st, sts[k]);
  }
}
