# Puzzle games and a grocery store, in Dafny

This project models the logic of two small Python programs and proves properties of the model.

**PuzzleGames** has two puzzles and a solver that works on either of them.

- Sudoku: an n-by-n grid, with n = 4, 9, 16 or 25, of empty cells and letters.
  - The puzzle is solved when every row, column and block holds each of the first n letters once.
  - `extensions` fills the first empty cell with each letter allowed there.
- Word ladder: a start word, a target word and a ladder of dictionary words.
  - Each move appends a word that differs from the last word in one letter.
- Solver:
  - `solve` and `solve_complete` search exhaustively.
  - A sequence of moves is a path of puzzles, each an extension of the one before. `solve` returns None only when no path leads to a solved puzzle. `solve_complete` returns every solved end of a path through unsolved puzzles, and everything it returns is the solved end of some path.
  - `hint_by_depth` grows a `SolutionTree` a given number of moves deep and picks the extension to hint at.
- Controller: the `StateTree` records every state the user has reached.

**GroceryShopSimulation** has a `GroceryStore`.

- The store holds checkout lines of three kinds: cashier, express and self-serve.
- Each line has its queue of customers and an open flag.
- The model covers the rule by which a customer picks a line, the checkout time of each kind, and the ways customers leave.

## Layout

- `Common.dfy`: `Option` and `Result`. `Result` is either a value or one of the Python exceptions the code raises.
- `Strings.dfy`: the pieces of Python string behaviour the puzzles rely on: `replace`, `split`, `int`, `str`, substring `in`, and the order `<`.
- `Sudoku.dfy`: the Sudoku puzzle, on immutable grids.
- `WordLadder.dfy`: the word ladder. The dictionary is a parameter `words`.
- `Puzzles.dfy`: the abstract `Puzzle` as a sum of the two kinds, each operation dispatching to its kind.
- `Solver.dfy`: `solve` and `solve_complete`, as recursive functions and as methods with the source's loops.
- `SolutionTrees.dfy`:
  - the `SolutionTree` class, with its `extensions` list updated in place;
  - `build_solution_tree` as methods that change the objects step by step;
  - `items_at_depth` and the hint choice.

  Every method is proved equal to a function on tree values. Lemmas about those functions say what the tree and the hint are.
- `Controller.dfy`: the `StateTree` class, with its `input` list updated in place.
  - Each method is proved to agree with a function on a `History` value.
  - The value-level lemmas hold the properties of `save`, `get_prev` and `get_attempt`.
- `Store.dfy`: the `GroceryStore` and its `Counter` objects, one class for the three counter kinds.

The two puzzles never change a state: every operation returns a new one. The model gives them pure functions, proved equal to methods that run the source's loops. The trees and the store change in place, and the model gives them classes with fields, `modifies` clauses and ghost models of their contents.

Where the code and its documentation disagree, the model follows the code.

- Word ladder `is_solved` with an empty ladder and start ≠ target. The documentation reads as if this were unsolved. The code returns True when the two words have the same length and `_diffone` holds between them.
- `_diffone`: the docstring says "different exactly by one character". The code compares only the common prefix that `zip` yields. So "ab" and "abc" count as one apart (`WordLadder.DiffOnePrefix`).
- Sudoku `move`/`is_valid` test the letter with `letter not in CHARS`, which is substring membership in "A".."Z". So any substring such as "BC" can be written into a cell when the other checks pass. A text with no token, or with a single numeric token, makes `is_valid` raise IndexError instead of returning False.
- `leave_line` fixes the range of positions before the loop, and pops inside it. When the name matches any customer but the last of a line, the loop reads past the end of the shortened list and raises IndexError. `Store.LeaveLineFails` proves this, and `Store.LeaveLineLast` proves when the call succeeds. The model keeps this behaviour.

## Model

| member | source | states |
|---|---|---|
| Strings.RemoveChar | PuzzleGames/sudoku_puzzle.py:219-223 | the result has no occurrence of the removed character and holds only characters of the input |
| Strings.RemoveCharAppend | PuzzleGames/sudoku_puzzle.py:219-223 | removing a character distributes over concatenation |
| Strings.Split | PuzzleGames/sudoku_puzzle.py:224 | `split()` yields non-empty tokens, none holding a character on which Python splits (IsSpace: the ASCII controls 9 to 13 and 28 to 31, the space, U+0085, U+00A0, U+1680, U+2000 to U+200A, U+2028, U+2029, U+202F, U+205F and U+3000) |
| Strings.SplitThree | PuzzleGames/sudoku_puzzle.py:224 | three tokens joined by one and by two blanks split back into exactly those three tokens |
| Strings.ParseNat | PuzzleGames/sudoku_puzzle.py:226-232 | `int(token)` succeeds exactly on non-empty all-digit tokens |
| Strings.ParseInt | PuzzleGames/sudoku_puzzle.py:226-232 | `int(token)` succeeds exactly on a digit string, optionally after one '+', and agrees with ParseNat on tokens starting with a digit |
| Strings.NatToString | PuzzleGames/sudoku_puzzle.py:345 | `str(i)` of a natural number is a non-empty string of digits |
| Strings.ParseNatToString | PuzzleGames/sudoku_puzzle.py:345 | parsing `str(i)` gives i back |
| Strings.CharIsSubstring | PuzzleGames/sudoku_puzzle.py:240 | every single character of a string is a substring of it, so every letter of CHARS passes `letter in CHARS` |
| Strings.LessIrreflexive | PuzzleGames/word_ladder_puzzle.py:204 | no string is below itself under Python's `<` |
| Strings.LessTransitive | PuzzleGames/word_ladder_puzzle.py:204 | Python's string `<` is transitive |
| Strings.LessTotal | PuzzleGames/word_ladder_puzzle.py:204 | Python's string `<` orders any two distinct strings |
| Strings.Insert | PuzzleGames/word_ladder_puzzle.py:204 | inserting into a strictly ascending list keeps it strictly ascending, with exactly the old elements and the new one |
| Strings.SortDistinct | PuzzleGames/word_ladder_puzzle.py:192-204 | `sorted(set(s))` is strictly ascending and has exactly the elements of s |
| Strings.SortedUnique | PuzzleGames/word_ladder_puzzle.py:192-204 | two strictly ascending lists with the same elements are equal, so the set's iteration order does not matter |
| Sudoku.BlockSize | PuzzleGames/sudoku_puzzle.py:147 | `int(sqrt(n))` is the m with m*m == n, between 2 and 5 |
| Sudoku.Letters | PuzzleGames/sudoku_puzzle.py:137 | `list(CHARS[:n])` has n entries, entry k being the k-th letter |
| Sudoku.LettersSorted | PuzzleGames/sudoku_puzzle.py:137 | the first n letters are strictly ascending and none is empty |
| Sudoku.BlockStart | PuzzleGames/sudoku_puzzle.py:251-253 | the block origin x for an index a is a multiple of m with x <= a < x + m |
| Sudoku.BlockStartUnique | PuzzleGames/sudoku_puzzle.py:251-253 | exactly one origin of `range(0, n, m)` passes the test `0 <= a - x < m` |
| Sudoku.OriginFits | PuzzleGames/sudoku_puzzle.py:148-152 | every block origin below n leaves room for a whole block |
| Sudoku.Column | PuzzleGames/sudoku_puzzle.py:143 | `[row[i] for row in grid]`: one cell per row, the one in column i |
| Sudoku.BlockRowsHas | PuzzleGames/sudoku_puzzle.py:150-152 | the block comprehension holds a value exactly when some cell of the block holds it |
| Sudoku.PermutationHasNoEmpty | PuzzleGames/sudoku_puzzle.py:130-138 | a row that sorts to the first n letters holds no empty cell |
| Sudoku.CoverIsPermutation | PuzzleGames/sudoku_puzzle.py:137 | cells as many as the distinct letters, holding each of them, are a permutation of the letters |
| Sudoku.SolvedIffConstraints | PuzzleGames/sudoku_puzzle.py:108-158 | `is_solved` holds exactly when every row, every column and every block is a permutation of the first n letters |
| Sudoku.IsSolved | PuzzleGames/sudoku_puzzle.py:108-158 | `is_solved`; SolvedIffConstraints proves it holds exactly when every row, column and block is a permutation of the first n letters |
| Sudoku.SolvedFourIsSolved | PuzzleGames/sudoku_puzzle.py:117-122 | the first doctest grid is solved |
| Sudoku.UnsolvedFourIsNotSolved | PuzzleGames/sudoku_puzzle.py:123-128 | the second doctest grid is not solved |
| Sudoku.FirstEmptyFrom | PuzzleGames/sudoku_puzzle.py:195-199 | from row r on, the first empty cell in row-major order, or none when every cell there is filled |
| Sudoku.FirstEmpty | PuzzleGames/sudoku_puzzle.py:193-202 | none exactly when the grid has no empty cell; otherwise an empty cell before which, in row-major order, every cell is filled |
| Sudoku.FindFirstEmpty | PuzzleGames/sudoku_puzzle.py:193-199 | the search loop with its `break` finds exactly FirstEmpty |
| Sudoku.KeepAllowed | PuzzleGames/sudoku_puzzle.py:352-386 | keeps exactly the letters not in the row, the column or the block of the cell |
| Sudoku.KeepAllowedSorted | PuzzleGames/sudoku_puzzle.py:352-363 | filtering an ascending list keeps it ascending |
| Sudoku.CandidatesExactly | PuzzleGames/sudoku_puzzle.py:352-386 | the possible letters are strictly ascending and are exactly the first n letters missing from the row, the column and the block |
| Sudoku.RemoveFirstCutsFirst | PuzzleGames/sudoku_puzzle.py:365-368 | `lst.remove(v)`, with ValueError caught, leaves a list without v alone and otherwise cuts out the first v |
| Sudoku.Without | PuzzleGames/sudoku_puzzle.py:363-386 | keeps exactly the members of the list that are not removed |
| Sudoku.RemoveFirstWithout | PuzzleGames/sudoku_puzzle.py:364-368 | on distinct letters, one more `remove` is filtering out one more value |
| Sudoku.WithoutIsKeepAllowed | PuzzleGames/sudoku_puzzle.py:363-386 | filtering out the values of the row, the column and the block keeps exactly the allowed letters |
| Sudoku.RemoveEach | PuzzleGames/sudoku_puzzle.py:364-368 | the loop over the row removes that row's values from the letters |
| Sudoku.RemoveColumn | PuzzleGames/sudoku_puzzle.py:370-374 | the loop over the rows removes the column's values |
| Sudoku.RemoveBlockAt | PuzzleGames/sudoku_puzzle.py:380-385 | the two innermost loops remove the values of the block at one origin |
| Sudoku.RemoveBlockInRow | PuzzleGames/sudoku_puzzle.py:378-385 | one pass over the origins of a block row removes the cell's block exactly when the block starts in that row |
| Sudoku.RemoveBlock | PuzzleGames/sudoku_puzzle.py:376-385 | the loops over all origins remove exactly the values of the cell's own block |
| Sudoku.RemovedAreDisallowed | PuzzleGames/sudoku_puzzle.py:363-385 | the values removed are exactly those not allowed at the cell |
| Sudoku.PossibleLetters | PuzzleGames/sudoku_puzzle.py:352-386 | `_possible_letters` returns exactly the ascending list of allowed letters |
| Sudoku.Extend | PuzzleGames/sudoku_puzzle.py:418-420 | `_extend` copies the grid, sets the one cell and changes no other cell |
| Sudoku.ExtensionsEmpty | PuzzleGames/sudoku_puzzle.py:194-207 | `extensions` is empty exactly when no cell is empty or the first empty cell admits no letter |
| Sudoku.ExtensionFillsFirstEmpty | PuzzleGames/sudoku_puzzle.py:193-207 | each extension writes an allowed letter into the first empty cell and changes no other cell |
| Sudoku.ExtensionsAscending | PuzzleGames/sudoku_puzzle.py:205-207 | the extensions come in strictly ascending order of the letter written |
| Sudoku.ExtensionsComplete | PuzzleGames/sudoku_puzzle.py:205-207 | every letter allowed in the first empty cell yields an extension |
| Sudoku.ComputeExtensions | PuzzleGames/sudoku_puzzle.py:193-207 | the search loop and the comprehension over `_possible_letters` compute exactly Extensions |
| Sudoku.Extensions | PuzzleGames/sudoku_puzzle.py:160-207 | `extensions`; ExtensionsEmpty, ExtensionFillsFirstEmpty, ExtensionsAscending and ExtensionsComplete prove it yields, in ascending letter order, exactly one grid per letter allowed in the first empty cell |
| Sudoku.PartialFourFirstEmpty | PuzzleGames/sudoku_puzzle.py:176-182 | in the doctest grid the first empty cell is (2, 2) |
| Sudoku.PartialFourCandidates | PuzzleGames/sudoku_puzzle.py:176-182 | in the doctest grid only "D" fits at (2, 2) |
| Sudoku.PartialFourExtensions | PuzzleGames/sudoku_puzzle.py:176-192 | the doctest grid has exactly the one extension printed there |
| Sudoku.FillDecreases | PuzzleGames/sudoku_puzzle.py:418-420 | writing a non-empty value into an empty cell leaves one empty cell fewer |
| Sudoku.ExtensionsDecrease | PuzzleGames/sudoku_puzzle.py:193-207 | every extension is well formed and has fewer empty cells than its parent |
| Sudoku.Clean | PuzzleGames/sudoku_puzzle.py:219-223 | after the five `replace` calls none of `( ) - > ,` remains |
| Sudoku.CleanAppend | PuzzleGames/sudoku_puzzle.py:219-223 | the five `replace` calls distribute over concatenation |
| Sudoku.CleanUnchanged | PuzzleGames/sudoku_puzzle.py:219-223 | a text without those characters is left as it is |
| Sudoku.ParseMove | PuzzleGames/sudoku_puzzle.py:219-264 | IndexError exactly when the text has no token, or one token that `int()` accepts, so that `move[0]` or `move[1]` is missing; never AttributeError; Ok exactly when there are two numeric leading tokens, both on the board, naming an empty cell, and the last token is a substring of CHARS allowed there, the result then being that cell and that token |
| Sudoku.IsValid | PuzzleGames/sudoku_puzzle.py:266-316 | the only exception `is_valid` lets through is IndexError |
| Sudoku.MoveAgreesWithIsValid | PuzzleGames/sudoku_puzzle.py:209-316 | `move` succeeds exactly when `is_valid` is True, raises ValueError exactly when it is False, and IndexError exactly when it raises IndexError |
| Sudoku.MoveFillsOneCell | PuzzleGames/sudoku_puzzle.py:259-264 | a successful move fills exactly one empty cell with an allowed substring of CHARS and changes no other cell |
| Sudoku.Move | PuzzleGames/sudoku_puzzle.py:209-264 | `move`; MoveAgreesWithIsValid and MoveFillsOneCell prove it succeeds exactly when `is_valid` is True and then fills one empty cell with an allowed letter |
| Sudoku.EqualIsEquality | PuzzleGames/sudoku_puzzle.py:318-333 | on well-formed grids `__eq__` (same size, cell-wise equal) is equality |
| Sudoku.Equal | PuzzleGames/sudoku_puzzle.py:318-333 | `__eq__`; EqualIsEquality proves it is equality on well-formed grids |
| Sudoku.HintFrom | PuzzleGames/sudoku_puzzle.py:341-346 | a hint other than "Hint Not Available" names a cell at or after the start in which the grids differ, with the other grid's value |
| Sudoku.HintFromSameSize | PuzzleGames/sudoku_puzzle.py:341-346 | between grids of one size the scan never raises, and says "Hint Not Available" exactly when every cell from the start on agrees |
| Sudoku.NoHintIffEqual | PuzzleGames/sudoku_puzzle.py:335-346 | between grids of one size the hint is "Hint Not Available" exactly when the grids are equal |
| Sudoku.HintFindsFirstDifference | PuzzleGames/sudoku_puzzle.py:341-345 | the hint is `'(i, j) -> L'` for the first cell, row-major, where the grids differ |
| Sudoku.HintTextTokens | PuzzleGames/sudoku_puzzle.py:345 | after the punctuation is stripped, a hint splits into the row, the column and the letter |
| Sudoku.ParseHintText | PuzzleGames/sudoku_puzzle.py:219-264 | the hint for an allowed letter in an empty cell parses back to that cell and letter |
| Sudoku.HintOfExtension | PuzzleGames/sudoku_puzzle.py:335-346 | the hint towards an extension names the cell it fills |
| Sudoku.ExtendRebuilds | PuzzleGames/sudoku_puzzle.py:418-420 | a grid that differs from g at most in one cell is g with that cell written |
| Sudoku.HintRoundTrip | PuzzleGames/sudoku_puzzle.py:335-346 | the hint towards any extension is a valid move, and making it gives that extension back |
| Sudoku.Hint | PuzzleGames/sudoku_puzzle.py:335-346 | `hint`; NoHintIffEqual, HintFindsFirstDifference and HintRoundTrip prove it names the first differing cell and, towards an extension, is a move that makes it |
| WordLadder.Narrow | PuzzleGames/word_ladder_puzzle.py:80-83 | `_narrow_words` holds exactly the dictionary words as long as the start word |
| WordLadder.NarrowAppend | PuzzleGames/word_ladder_puzzle.py:80-83 | one more dictionary word adds itself to `_narrow_words` exactly when its length matches |
| WordLadder.NarrowWords | PuzzleGames/word_ladder_puzzle.py:80-83 | the constructor's loop computes exactly Narrow |
| WordLadder.Shorter | PuzzleGames/word_ladder_puzzle.py:316 | `zip` stops at the length of the shorter word |
| WordLadder.DiffOneScan | PuzzleGames/word_ladder_puzzle.py:304-322 | the loop with `one_diff` computes DiffOne: the words differ, and at most one zipped pair does |
| WordLadder.CountDiffOne | PuzzleGames/word_ladder_puzzle.py:316-321 | exactly one differing pair means one index differs and all the others agree |
| WordLadder.DiffOneSameLength | PuzzleGames/word_ladder_puzzle.py:304-322 | for words of one length `_diffone` holds exactly when they differ at exactly one index |
| WordLadder.DiffOneSymmetric | PuzzleGames/word_ladder_puzzle.py:304-322 | `_diffone` is symmetric |
| WordLadder.DiffOnePrefix | PuzzleGames/word_ladder_puzzle.py:316 | only the common prefix is compared: "ab" and "abc" are one apart |
| WordLadder.DiffOneExamples | PuzzleGames/word_ladder_puzzle.py:304-322 | worked cases: "care"/"cane" and "care"/"cure" are one apart; "care"/"care" and "care"/"dire" are not |
| WordLadder.DiffOne | PuzzleGames/word_ladder_puzzle.py:304-322 | `_diffone`; DiffOneScan, DiffOneSameLength and DiffOneSymmetric prove that on words of one length it holds exactly when they differ at exactly one index |
| WordLadder.Variant | PuzzleGames/word_ladder_puzzle.py:334 | the new word has the same length, the new letter at i and the old letter everywhere else |
| WordLadder.Row | PuzzleGames/word_ladder_puzzle.py:333-334 | one pass of the inner loop yields one variant per letter of CHARS, in order |
| WordLadder.RowsMembers | PuzzleGames/word_ladder_puzzle.py:332-334 | the outer loop up to n yields exactly the variants at indices below n |
| WordLadder.AllVariantsMembers | PuzzleGames/word_ladder_puzzle.py:331-338 | the generated words are exactly w with one letter replaced by a letter of CHARS |
| WordLadder.KeepUnused | PuzzleGames/word_ladder_puzzle.py:335-337 | keeps exactly the words not in the ladder and not the start word |
| WordLadder.KeepUnusedAppend | PuzzleGames/word_ladder_puzzle.py:335-337 | one more candidate is appended exactly when it is unused |
| WordLadder.PossibleWordsShape | PuzzleGames/word_ladder_puzzle.py:324-338 | each possible word has w's length, equals w except at most at one index, is not in the ladder and is not the start word |
| WordLadder.PossibleWordsAt | PuzzleGames/word_ladder_puzzle.py:333-337 | the inner loop appends exactly the unused variants at index i |
| WordLadder.PossibleWordsLoop | PuzzleGames/word_ladder_puzzle.py:331-338 | the two loops compute exactly PossibleWords |
| WordLadder.PossibleWords | PuzzleGames/word_ladder_puzzle.py:324-338 | `_possible_words`; PossibleWordsShape and PossibleWordsLoop prove that each of its words has w's length, differs from w at most at one index and is unused, and that the two loops compute it |
| WordLadder.Extend | PuzzleGames/word_ladder_puzzle.py:340-351 | `_extend` keeps start and target and appends the word to a copy of the ladder |
| WordLadder.KeepExtending | PuzzleGames/word_ladder_puzzle.py:194-203 | keeps exactly the candidates in `_narrow_words` that are one apart from the tail |
| WordLadder.NextWords | PuzzleGames/word_ladder_puzzle.py:187-204 | the words `extensions` appends are strictly ascending and are exactly the narrow, unused words one apart from the tail |
| WordLadder.NextWordsUnique | PuzzleGames/word_ladder_puzzle.py:192-204 | any ascending list of those words is that list, whatever order the set yields |
| WordLadder.ExtendAll | PuzzleGames/word_ladder_puzzle.py:205 | one child per word |
| WordLadder.Move | PuzzleGames/word_ladder_puzzle.py:208-240 | succeeds exactly when the shared checks pass, else ValueError; the new state keeps start and target and appends m to the ladder |
| WordLadder.IsValid | PuzzleGames/word_ladder_puzzle.py:242-266 | `is_valid`; the ensures of Move state that `move` succeeds exactly when it holds |
| WordLadder.ExtensionsAscending | PuzzleGames/word_ladder_puzzle.py:204-205 | the extensions are sorted strictly by the appended word, hence without duplicates |
| WordLadder.ExtensionsAreMoves | PuzzleGames/word_ladder_puzzle.py:187-240 | each extension is the result of a valid move with its last word |
| WordLadder.MovesAreExtensions | PuzzleGames/word_ladder_puzzle.py:187-266 | every valid move to a lower-case word is one of the extensions |
| WordLadder.Extensions | PuzzleGames/word_ladder_puzzle.py:154-206 | `extensions`; NextWords, ExtensionsAscending, ExtensionsAreMoves and MovesAreExtensions prove its children are exactly the valid moves to lower-case words, in ascending order |
| WordLadder.OneApartIsVariant | PuzzleGames/word_ladder_puzzle.py:331-338 | a lower-case word of the same length one apart from t is among t's variants |
| WordLadder.EqualIsEquality | PuzzleGames/word_ladder_puzzle.py:268-288 | `__eq__` (start, target, ladders element-wise) is equality of states |
| WordLadder.Equal | PuzzleGames/word_ladder_puzzle.py:268-288 | `__eq__`; EqualIsEquality proves it is equality of states |
| WordLadder.Hint | PuzzleGames/word_ladder_puzzle.py:290-298 | `puzzle._ladder[len(self._ladder)]`: IndexError exactly when the other ladder is not longer |
| WordLadder.HintRoundTrip | PuzzleGames/word_ladder_puzzle.py:290-298 | the hint towards an extension is a valid move, and making it gives that extension back |
| WordLadder.IsSolvedLoop | PuzzleGames/word_ladder_puzzle.py:126-152 | the loop of `is_solved` computes IsSolved. With an empty ladder: start == target, or same length and `_diffone`. Otherwise: every entry is narrow and one apart from its predecessor, and the last is the target |
| WordLadder.IsSolvedExamples | PuzzleGames/word_ladder_puzzle.py:118-123 | the doctests: ('mist', 'mire') is not solved, ('mist', 'mist') is |
| WordLadder.MovePreservesChained | PuzzleGames/word_ladder_puzzle.py:208-240 | a move keeps a chained ladder chained |
| WordLadder.SolvedByMove | PuzzleGames/word_ladder_puzzle.py:134-152 | a chained ladder is solved by a move exactly when the move enters the target |
| WordLadder.IsSolved | PuzzleGames/word_ladder_puzzle.py:111-152 | `is_solved`; IsSolvedLoop, IsSolvedExamples and SolvedByMove prove the loop computes it and that a chained ladder becomes solved exactly when a move enters the target |
| WordLadder.MoveDecreasesRank | PuzzleGames/word_ladder_puzzle.py:219-240 | a successful move uses up one unused narrow word |
| WordLadder.ExtensionsDecrease | PuzzleGames/word_ladder_puzzle.py:187-206 | every extension has fewer unused narrow words than its parent |
| Puzzles.Extensions | PuzzleGames/solver.py:34 | `puzzle.extensions()` gives valid puzzles of the same kind and of lower rank |
| Puzzles.MoveAgreesWithIsValid | PuzzleGames/word_ladder_puzzle.py:208-266 | for either kind, `move` succeeds exactly when `is_valid` says True and raises ValueError exactly when it says False |
| Puzzles.MoveDecreasesRank | PuzzleGames/sudoku_puzzle.py:259-264 | a move keeps the kind and validity of the puzzle and lowers its rank |
| Puzzles.Equal | PuzzleGames/sudoku_puzzle.py:318-333 | comparing puzzles of different kinds raises AttributeError, and only then |
| Puzzles.EqualIsEquality | PuzzleGames/word_ladder_puzzle.py:268-288 | between puzzles of one kind `__eq__` is equality |
| Puzzles.IsSolved | PuzzleGames/solver.py:31 | `puzzle.is_solved()` of either kind; SolveIsSound and SolveCompleteIsSound prove every answer satisfies it |
| Puzzles.IsValid | PuzzleGames/sudoku_puzzle.py:266-316 | `is_valid` of either kind; MoveAgreesWithIsValid proves `move` succeeds exactly when it is True |
| Puzzles.Move | PuzzleGames/sudoku_puzzle.py:209-264 | `move` of either kind; MoveAgreesWithIsValid and MoveDecreasesRank prove it succeeds exactly when `is_valid` is True, keeping the kind and lowering the rank |
| Puzzles.Hint | PuzzleGames/sudoku_puzzle.py:335-346 | a hint across kinds raises AttributeError |
| Puzzles.HintRoundTrip | PuzzleGames/sudoku_puzzle.py:335-346 | for either kind the hint towards an extension is a valid move whose result is that extension |
| Solver.FirstSolved | PuzzleGames/solver.py:43-46 | none exactly when no puzzle of the list is solved; otherwise a solved member |
| Solver.SolvedAmong | PuzzleGames/solver.py:102-104 | exactly the solved members of the list |
| Solver.Grandchildren | PuzzleGames/solver.py:42-53 | `choices` are valid and of rank below the bound |
| Solver.SolvedIsAnswer | PuzzleGames/solver.py:31-32 | a solved puzzle is returned unchanged by `solve`, and `solve_complete` returns exactly it |
| Solver.NoExtensionsNoAnswer | PuzzleGames/solver.py:39-40 | an unsolved puzzle without extensions has no answer from either search |
| Solver.SolvedChildFirst | PuzzleGames/solver.py:39-46 | if some child is solved, `solve` returns the first solved child in `extensions` order |
| Solver.FirstSolvedAt | PuzzleGames/solver.py:43-46 | FirstSolved finds the solved puzzle that no solved puzzle precedes |
| Solver.SolveIsSound | PuzzleGames/solver.py:14-69 | every answer of `solve` is valid and solved |
| Solver.SolveFirstIsSound | PuzzleGames/solver.py:59-69 | every answer of the loop over `choices` is valid and solved |
| Solver.SolveCompleteIsSound | PuzzleGames/solver.py:72-123 | every puzzle `solve_complete` returns is valid and solved |
| Solver.SolveAllIsSound | PuzzleGames/solver.py:116-123 | every puzzle the loop over `choices` collects is valid and solved |
| Solver.FirstSolvedIsHead | PuzzleGames/solver.py:101-104 | the first solved child is the head of the solved children, and is none exactly when there are none |
| Solver.SolveIsFirstOfComplete | PuzzleGames/solver.py:42-69 | `solve` is None exactly when `solve_complete` is empty, and otherwise its first element |
| Solver.SolveFirstIsFirstOfAll | PuzzleGames/solver.py:59-69 | the same relation between the two loops over `choices` |
| Solver.SolveOfUnsolved | PuzzleGames/solver.py:31-69 | for an unsolved puzzle with extensions: the first solved child, else None without `choices`, else the first answer among `choices` |
| Solver.SolveCompleteOfUnsolved | PuzzleGames/solver.py:88-123 | for an unsolved puzzle with extensions: the solved children followed by all answers of `choices` |
| Solver.SolveLoop | PuzzleGames/solver.py:14-69 | the loops of `solve` compute exactly Solve |
| Solver.ScanChildren | PuzzleGames/solver.py:42-53 | the loop over the children stops at the first solved one, or else collects exactly `choices` |
| Solver.PrefixStep | PuzzleGames/solver.py:43-53 | what one more child adds to the first solved child, the solved children and `choices` |
| Solver.FirstSolvedOfPrefix | PuzzleGames/solver.py:43-46 | once a prefix holds a solved puzzle, the first solved puzzle is that of the prefix |
| Solver.SolveChoices | PuzzleGames/solver.py:59-69 | the loop over `choices` computes exactly its first answer |
| Solver.SolveCompleteLoop | PuzzleGames/solver.py:72-123 | the loops of `solve_complete` compute exactly SolveComplete |
| Solver.CollectChildren | PuzzleGames/solver.py:101-110 | the loop over the children collects exactly the solved children into `final` and every child's extensions into `choices` |
| Solver.SolveChoicesComplete | PuzzleGames/solver.py:116-123 | the loop over `choices` appends exactly all their answers to `final` |
| Solver.Solve | PuzzleGames/solver.py:14-69 | `solve`; SolveIsSound, SolveIsComplete and SolveReaches prove it answers with a solved puzzle at the end of a path from the start, and None only when no path reaches a solved puzzle |
| Solver.SolveFirst | PuzzleGames/solver.py:59-69 | the loop over `choices` in `solve`; SolveFirstIsSound and SolveFirstFinds prove it answers with a solved puzzle whenever some choice has an answer |
| Solver.SolveComplete | PuzzleGames/solver.py:72-123 | `solve_complete`; SolveCompleteIsSound, SolveCompleteIsComplete and SolveCompleteReaches prove it holds only solved ends of paths from the start, and every one reached through unsolved puzzles |
| Solver.SolveAll | PuzzleGames/solver.py:116-123 | the loop over `choices` in `solve_complete`; SolveAllIsSound and SolveAllHas prove it holds only solved puzzles and every answer of every choice |
| Solver.GrandchildrenHas | PuzzleGames/solver.py:42-53 | every extension of a child is among `choices` |
| Solver.GrandchildrenFrom | PuzzleGames/solver.py:42-53 | every one of `choices` is an extension of some child |
| Solver.SolveFirstFinds | PuzzleGames/solver.py:59-69 | the loop over `choices` answers when some choice has an answer |
| Solver.SolveAllHas | PuzzleGames/solver.py:116-123 | the loop over `choices` collects every answer of every choice |
| Solver.GrandchildSolves | PuzzleGames/solver.py:42-69 | when no child is solved, a grandchild with an answer gives `solve` an answer |
| Solver.GrandchildCollects | PuzzleGames/solver.py:88-123 | every answer `solve_complete` returns for a grandchild it returns for the puzzle |
| Solver.SolveFindsPath | PuzzleGames/solver.py:14-69 | whenever a sequence of moves leads from the puzzle to a solved one, `solve` answers |
| Solver.SolveIsComplete | PuzzleGames/solver.py:15-18 | `solve` returns None only when no sequence of moves leads to a solved puzzle |
| Solver.SolveCompleteIsComplete | PuzzleGames/solver.py:72-123 | every solved puzzle reached through unsolved ones is among the results of `solve_complete` |
| Solver.SolveCompleteReaches | PuzzleGames/solver.py:72-123 | every result of `solve_complete` is the end of a sequence of moves from the puzzle |
| Solver.GrandchildReaches | PuzzleGames/solver.py:116-123 | every answer collected below `choices` is the end of a sequence of moves from the puzzle |
| Solver.SolveAllReaches | PuzzleGames/solver.py:116-123 | every answer of the loop over `choices` is the end of a sequence of moves from one of them |
| Solver.SolveReaches | PuzzleGames/solver.py:14-69 | the answer of `solve` is the end of a sequence of moves from the puzzle |
| SolutionTrees.Next | PuzzleGames/solver.py:197 | `extensions()` on a puzzle of a tree: valid puzzles, equal to Puzzles.Extensions |
| SolutionTrees.Roots | PuzzleGames/solver.py:169 | `get_root()` of each subtree, in order |
| SolutionTrees.GrowLeaf | PuzzleGames/solver.py:196-200 | the first step turns a leaf into the tree one move deep |
| SolutionTrees.GrowLeaves | PuzzleGames/solver.py:205-209 | the second step turns the tree one move deep into the tree two moves deep |
| SolutionTrees.BuildFromLeaf | PuzzleGames/solver.py:187-217 | for n >= 1, building below a fresh tree gives the full expansion n moves deep: every node at depth k <= n has exactly its `extensions()`, in order; the nodes at depth n + 1 have no children |
| SolutionTrees.BuildBelowLeaves | PuzzleGames/solver.py:213-217 | the third step on the tree two moves deep gives the full expansion n moves deep |
| SolutionTrees.BuildChildrenOfLeaves | PuzzleGames/solver.py:215-216 | building every subtree of a choice with n - 2 gives that choice's expansion n - 1 moves deep |
| SolutionTrees.RootsOfFull | PuzzleGames/solver.py:199 | the roots of the expansions of ps are ps |
| SolutionTrees.ItemsOfFull | PuzzleGames/solver.py:271-293 | the nodes at depth d of the expansion k moves deep hold, in order, the puzzles d - 1 moves below its root |
| SolutionTrees.ItemsOfFullAll | PuzzleGames/solver.py:291-293 | the concatenated `items_at_depth(d - 1)` of the subtrees hold the puzzles d - 2 moves below them |
| SolutionTrees.FirstLeading | PuzzleGames/solver.py:168-176 | the first child that leads to a solution, |ts| when none does |
| SolutionTrees.FirstReaching | PuzzleGames/solver.py:179-182 | the first child with a node at depth n, |ts| when none has one |
| SolutionTrees.LeadsOfFull | PuzzleGames/solver.py:168-176 | on a child's full expansion, the test of the first loop holds exactly when the child is solved or a puzzle 1 to n - 1 moves below it is |
| SolutionTrees.ReachesOfFull | PuzzleGames/solver.py:179-182 | on a child's full expansion, the test of the second loop holds exactly when n - 1 further moves are possible from the child |
| SolutionTrees.ChooseOnFull | PuzzleGames/solver.py:165-184 | on the full expansion the choice is an extension: the first child that can lead to a solution within n moves; else the first from which n - 1 more moves are possible; None exactly when neither exists |
| SolutionTrees.HelperChoosesExtension | PuzzleGames/solver.py:152-184 | `hint_by_depth_helper` with that selection order, stated on the extensions of the puzzle |
| SolutionTrees.HintByDepthIsMove | PuzzleGames/solver.py:126-149 | 'Already at a solution!' for a solved puzzle; 'No possible extensions!' when the helper finds nothing; otherwise a hint that is a valid move leading to the chosen extension |
| SolutionTrees.ItemsAtAllSnoc | PuzzleGames/solver.py:291-292 | one more subtree appends its `items_at_depth(d - 1)` |
| SolutionTrees.SolutionTree.constructor | PuzzleGames/solver.py:231-238 | `SolutionTree(puzzle)`: the puzzle as root and no extensions |
| SolutionTrees.SolutionTree.AddExtensions | PuzzleGames/solver.py:248-257 | the trees are appended in order to the extensions; the root and the old subtrees are unchanged |
| SolutionTrees.SolutionTree.ItemsAtDepth | PuzzleGames/solver.py:271-293 | the nodes at depth d below this one, left to right, each with the value ItemsAt gives |
| SolutionTrees.GrowNode | PuzzleGames/solver.py:196-200 | the first loop of `build_solution_tree` gives the node one new leaf per extension of its puzzle |
| SolutionTrees.GrowChild | PuzzleGames/solver.py:206-209 | one turn of the second loop grows subtree i and leaves the others unchanged |
| SolutionTrees.GrowEach | PuzzleGames/solver.py:205-209 | the second loop grows every subtree |
| SolutionTrees.BuildSolutionTree | PuzzleGames/solver.py:187-217 | `build_solution_tree(root, n)` returns the root object, changed to hold exactly Build of its old value |
| SolutionTrees.BuildGrandchildrenLoop | PuzzleGames/solver.py:214-217 | the third loop builds every grandchild with n - 2 |
| SolutionTrees.BuildChoice | PuzzleGames/solver.py:214-216 | one turn of the third loop changes only choice i |
| SolutionTrees.BuildEachNest | PuzzleGames/solver.py:215-216 | the inner loop builds every subtree of one choice with n - 2 |
| SolutionTrees.BuildNest | PuzzleGames/solver.py:216 | `build_solution_tree(nest_obj, n - 2)` changes only subtree j |
| SolutionTrees.AnyRootSolved | PuzzleGames/solver.py:174-176 | True exactly when some node among the items holds a solved puzzle |
| SolutionTrees.LeadsScan | PuzzleGames/solver.py:169-176 | the test of the first loop on one child, computed by its loops |
| SolutionTrees.FirstLeadingScan | PuzzleGames/solver.py:168-176 | the first loop stops at exactly FirstLeading |
| SolutionTrees.FirstReachingScan | PuzzleGames/solver.py:179-182 | the second loop stops at exactly FirstReaching |
| SolutionTrees.PickAmong | PuzzleGames/solver.py:168-184 | the two loops over `next_move` pick exactly what Pick does |
| SolutionTrees.ChooseHint | PuzzleGames/solver.py:165-184 | build the tree on a fresh node, take `items_at_depth(2)` and pick: exactly Choose on Build |
| SolutionTrees.HintByDepthHelperMethod | PuzzleGames/solver.py:152-184 | `hint_by_depth_helper` on puzzles computes exactly HintByDepthHelper |
| SolutionTrees.HintByDepthMethod | PuzzleGames/solver.py:126-149 | `hint_by_depth`, running the helper twice as the source does, computes exactly HintByDepth |
| SolutionTrees.ItemsAt | PuzzleGames/solver.py:271-293 | `items_at_depth`; ItemsOfFull and ItemsOfFullAll prove that on a full expansion it holds, in order, the puzzles d moves away |
| SolutionTrees.Build | PuzzleGames/solver.py:187-217 | `build_solution_tree`; BuildFromLeaf proves that below a fresh tree it gives the full expansion n moves deep, and BuildSolutionTree that the method computes it |
| SolutionTrees.Choose | PuzzleGames/solver.py:165-184 | the selection in `hint_by_depth_helper`; ChooseOnFull proves that on the full expansion it picks an extension: the first child that can lead to a solution within n moves, else the first from which n - 1 more moves are possible |
| SolutionTrees.HintByDepthHelper | PuzzleGames/solver.py:152-184 | `hint_by_depth_helper`; HelperChoosesExtension and HintByDepthHelperMethod prove it returns such an extension and that the method computes it |
| SolutionTrees.HintByDepth | PuzzleGames/solver.py:126-149 | `hint_by_depth`; HintByDepthIsMove and HintByDepthMethod prove it gives the messages for a solved puzzle and one without extensions, and otherwise a valid move to an extension |
| StateTrees.SavedFinds | PuzzleGames/controller.py:338-355 | `save` returns True exactly when some node holds curr, and leaves the tree unchanged when none does |
| StateTrees.SavedFromFinds | PuzzleGames/controller.py:348-355 | the loop of `save` finds exactly when some child from position i on holds curr |
| StateTrees.SaveThenAttempts | PuzzleGames/controller.py:338-400 | `save` appends the child to the very node `get_attempt` finds: afterwards its attempts are the old ones followed by the child |
| StateTrees.SaveFromThenAttempts | PuzzleGames/controller.py:348-355 | the same along the loop over the children |
| StateTrees.SavedFromKeeps | PuzzleGames/controller.py:348-355 | the loop of `save` changes no earlier child and no field of the node but `input` |
| StateTrees.SaveVisited | PuzzleGames/controller.py:338-355 | after `save` the tree holds what it held, and everything in the child when some node held curr |
| StateTrees.SavedFromVisited | PuzzleGames/controller.py:348-355 | the same along the loop over the children |
| StateTrees.PrevFinds | PuzzleGames/controller.py:357-380 | `get_prev` finds a node exactly when some node holds curr |
| StateTrees.PrevFromFinds | PuzzleGames/controller.py:371-380 | the same along the loop over the children |
| StateTrees.AttemptsFinds | PuzzleGames/controller.py:382-400 | `get_attempt` finds a node exactly when some node holds curr |
| StateTrees.AttemptsFromFinds | PuzzleGames/controller.py:393-400 | the same along the loop over the children |
| StateTrees.VisitedFromStep | PuzzleGames/controller.py:333-335 | some child from i on holds p exactly when child i does or some child from i + 1 on does |
| StateTrees.SameFrom | PuzzleGames/controller.py:333-335 | children that agree from i on hold the same states there |
| StateTrees.Visited | PuzzleGames/controller.py:319-336 | `__contains__`; StateTree.Contains proves the method computes it, and SaveVisited what `save` adds to it |
| StateTrees.Saved | PuzzleGames/controller.py:338-355 | `save`; SavedFinds, SaveVisited and SavedSize prove it reports True exactly when some node holds curr and then adds the child's nodes exactly once, otherwise changing nothing |
| StateTrees.PrevOf | PuzzleGames/controller.py:357-380 | `get_prev`; PrevFinds proves it finds a node exactly when some node holds curr |
| StateTrees.AttemptsOf | PuzzleGames/controller.py:382-400 | `get_attempt`; AttemptsFinds and SaveThenAttempts prove it finds a node exactly when some node holds curr, and that it is the node `save` extends |
| StateTrees.SavedSize | PuzzleGames/controller.py:338-355 | `save` adds the child's nodes exactly once when some node holds curr, and none otherwise, so no other node gains a child |
| StateTrees.SavedFromSize | PuzzleGames/controller.py:348-355 | the same along the loop over the children |
| StateTrees.SizeWithChild | PuzzleGames/controller.py:308-317 | `add_child` adds exactly the nodes of the child |
| StateTrees.SizeFromUpdate | PuzzleGames/controller.py:348-354 | replacing one child changes the count by the difference of the two sizes |
| StateTrees.StateTree.constructor | PuzzleGames/controller.py:282-298 | a new node holds the given state, position, parent and command, and no children |
| StateTrees.StateTree.Root | PuzzleGames/controller.py:282-298 | with the default arguments: position (0, 0), no parent state or index, no command, no children |
| StateTrees.StateTree.AddChild | PuzzleGames/controller.py:308-317 | the child is appended to `input`; nothing else changes |
| StateTrees.StateTree.Contains | PuzzleGames/controller.py:319-336 | `obj in tree` is True exactly when some node holds `obj.state` |
| StateTrees.StateTree.Save | PuzzleGames/controller.py:338-355 | the new tree and the answer are exactly Saved of the old tree |
| StateTrees.StateTree.SaveUnder | PuzzleGames/controller.py:348-354 | one turn of the loop of `save`: add the child to child i when it holds curr, else save below it; only child i changes |
| StateTrees.StateTree.AttachUnder | PuzzleGames/controller.py:349-351 | `state_obj.add_child(child)` on child i changes only child i |
| StateTrees.StateTree.SaveBelow | PuzzleGames/controller.py:353-354 | `state_obj.save(child, curr)` on child i changes only child i, as Saved says |
| StateTrees.StateTree.GetPrev | PuzzleGames/controller.py:357-380 | exactly PrevOf: the parent state and index of the first node holding curr, None for `([], False)`; the tree is not changed |
| StateTrees.StateTree.GetAttempt | PuzzleGames/controller.py:382-400 | the `input` list of the first node holding curr, with True; `[]` with False when there is none |
| Store.KindAt | GroceryShopSimulation/store.py:41-52 | cashiers at `[0, cashier)`, express counters at `[cashier, cashier + express)`, self-serve after |
| Store.Resolve | GroceryShopSimulation/store.py:61 | Python list indexing: an index in `[-n, n)` picks an element, counting from the end when negative; others raise IndexError |
| Store.FirstIn | GroceryShopSimulation/store.py:124-125 | the first position in a line of a customer with the name, none when there is none |
| Store.FirstMatch | GroceryShopSimulation/store.py:122-125 | the first line holding the name and the first position in it, none when no line holds it |
| Store.FirstMatchAt | GroceryShopSimulation/store.py:122-125 | the position the nested scans stop at is the first match |
| Store.PopsPastEnd | GroceryShopSimulation/store.py:188-192 | once a pop has shortened the line below the fixed range, the loop raises IndexError |
| Store.PopsSkip | GroceryShopSimulation/store.py:188-190 | positions without a match are passed over |
| Store.LeaveLineFails | GroceryShopSimulation/store.py:188-192 | a match before the last position of a line makes `leave_line` raise IndexError |
| Store.LeaveLineLast | GroceryShopSimulation/store.py:188-192 | with no match before the last position the loop goes through, removing the last customer when it matches |
| Store.LeftUpTo | GroceryShopSimulation/store.py:188-192 | the first i lines have been through the inner loop, the others are as they were |
| Store.JoinChoiceUnique | GroceryShopSimulation/store.py:75-91 | the line-selection rule determines the line |
| Store.JoinChoice | GroceryShopSimulation/store.py:75-91 | the line `join_line` picks; JoinChoiceUnique proves it determines the line, and GroceryStore.ChooseLine that the loop finds it |
| Store.LeaveLineFrom | GroceryShopSimulation/store.py:188-192 | the inner loop of `leave_line` on one line; LeaveLineFails and LeaveLineLast prove it raises IndexError on a match before the last position, else removes only a last-position match |
| Store.CheckoutTime | GroceryShopSimulation/store.py:216-331 | `checkout_time` of Cashier, Express and SelfServe; GroceryStore.SpendTime proves `spend_time` returns it for the last line holding the name |
| Store.Counter.constructor | GroceryShopSimulation/store.py:206-213 | a new counter is open and empty |
| Store.Counter.AddCustomer | GroceryShopSimulation/store.py:227-236 | the new customer is appended at the end of the line, the open flag unchanged |
| Store.Counter.RemoveCustomer | GroceryShopSimulation/store.py:238-245 | `pop(index)`: the customer at the resolved index is cut out, or IndexError with the line unchanged |
| Store.GroceryStore.constructor | GroceryShopSimulation/store.py:23-52 | the lines in configuration order, of the kinds KindAt gives, all open and empty, as distinct objects |
| Store.GroceryStore.LineIsEmpty | GroceryShopSimulation/store.py:54-61 | True exactly when the line holds one customer; IndexError for an index out of range |
| Store.GroceryStore.ChooseLine | GroceryShopSimulation/store.py:75-88 | the loop's `chosen_line_index` satisfies JoinChoice: the first shortest eligible line below capacity, where express lines are eligible only below 8 items; else 0 |
| Store.GroceryStore.JoinLine | GroceryShopSimulation/store.py:63-91 | the chosen line, per JoinChoice, gets the customer at its end and no other line changes; IndexError when there are no lines |
| Store.GroceryStore.SpendTime | GroceryShopSimulation/store.py:93-109 | the checkout time at the last line holding the name, 0 when none does |
| Store.GroceryStore.FindFirst | GroceryShopSimulation/store.py:120-125 | the nested scans find exactly FirstMatch |
| Store.GroceryStore.FindNextCustomer | GroceryShopSimulation/store.py:111-128 | at the first match, False when it is last in its line and True otherwise; None when absent |
| Store.GroceryStore.FindNextCustomerName | GroceryShopSimulation/store.py:130-140 | the name of the customer after the first match; IndexError when the match is last; None when absent |
| Store.GroceryStore.FindNextCustomerItems | GroceryShopSimulation/store.py:142-153 | the items of the customer after the first match, with the same errors |
| Store.GroceryStore.LeaveStore | GroceryShopSimulation/store.py:155-163 | only the front customer of that line leaves; IndexError for a bad index or an empty line, with nothing changed |
| Store.GroceryStore.CloseLine | GroceryShopSimulation/store.py:165-171 | only that line's open flag changes, to False |
| Store.GroceryStore.GetCustomerList | GroceryShopSimulation/store.py:173-180 | the customers of that line, IndexError for a bad index |
| Store.GroceryStore.LeaveLine | GroceryShopSimulation/store.py:182-192 | success exactly when every line's inner loop goes through, each line then as LeaveLineFrom leaves it. Otherwise IndexError at the first failing line k: lines up to k as the loop left them, later lines unchanged |
| Store.GroceryStore.LeaveThisLine | GroceryShopSimulation/store.py:188-192 | the inner loop on one line leaves it as LeaveLineFrom says and changes no other line |

## Left out

- Reading the dictionary file in the word ladder constructor. The word list is the parameter `words`.
- Reading the JSON configuration of the store. Its three counts and the capacity are constructor arguments. The counts are natural numbers; a negative count from the file is not modelled.
- All `__str__` rendering, the `verbose` printing of the solver, the `Controller` class with its views, and GroceryShopSimulation/simulation.py. These are presentation and driving code around the core.
- `is_empty` of `SolutionTree` and `StateTree`, and the ValueError branches of `add_extensions`, `add_child` and `__contains__` that test it. Every node holds a puzzle, so a state of None never occurs in the model.
- `get_root` and `get_extensions` are reads of the fields `root` and `extensions`.
- StateTrees.StateTree.Contains: states are compared with Dafny's `==`. The source calls the puzzle's `__eq__`, which equals `==` between puzzles of one kind (`Puzzles.EqualIsEquality`) and raises AttributeError across kinds. The model assumes one game per tree, so the cross-kind case is not modelled. The same holds for `Save`, `GetPrev` and `GetAttempt`.
- SolutionTrees.SolutionTree.ItemsAtDepth: `items_at_depth(1)` returns the list holding the puzzle itself, not the tree. The model returns the node. The only caller at depth 1 (`items_at_depth(n)` with n = 1) uses just the length, which is the same.
- Sharing of nodes between trees. The classes' `Valid` predicates require disjoint subtrees; the source never shares a node, but nothing would stop it.
- Python's `int()` beyond a decimal digit string with an optional '+' sign. A leading '-', white space, underscores and non-ASCII digits are not accepted. A negative number would in any case fail the range check.
- The cross-kind `hint_generator` and the store's `type(...) == Express` on other classes are modelled only for the kinds that exist.
- Running time and recursion depth of the exhaustive search. Termination rests on the rank of a puzzle: empty cells of a grid, unused dictionary words of a ladder.
