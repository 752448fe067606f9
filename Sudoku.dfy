/** The Sudoku puzzle of PuzzleGames/sudoku_puzzle.py.

    A state is an n-by-n grid (n = 4, 9, 16 or 25) whose cells are either empty
    ("") or hold the text written into them; the puzzle is solved when every
    row, every column and every sqrt(n)-by-sqrt(n) block holds each of the
    first n letters exactly once. Every operation returns a new grid; no grid
    is ever changed. */
module Sudoku {
  import opened Common
  import opened Strings

  /** CHARS: the upper-case alphabet. */
  const Chars: string := "ABCDEFGHIJKLMNOPQRSTUVWXYZ"

  /** The alphabet is in ascending order. */
  lemma CharsOrdered(i: nat, j: nat)
    requires i < j < |Chars|
    ensures Chars[i] < Chars[j]
  {
  }

  /** A cell: "" when empty, otherwise the text written into it. */
  type Cell = string

  type Grid = seq<seq<Cell>>

  predicate ValidSize(n: int)
  {
    n == 4 || n == 9 || n == 16 || n == 25
  }

  /** `int(sqrt(n))` for the four board sizes. */
  function BlockSize(n: int): (m: nat)
    requires ValidSize(n)
    ensures m * m == n && 2 <= m <= 5
  {
    if n == 4 then 2 else if n == 9 then 3 else if n == 16 then 4 else 5
  }

  /** What the constructor asks of its grid: square, of one of the four sizes. */
  predicate WellFormed(g: Grid)
  {
    ValidSize(|g|) && forall i :: 0 <= i < |g| ==> |g[i]| == |g|
  }

  /** `list(CHARS[:n])`, each letter as a one-character string. */
  function Letters(n: nat): (r: seq<Cell>)
    requires n <= |Chars|
    ensures |r| == n
    ensures forall k :: 0 <= k < n ==> r[k] == [Chars[k]]
  {
    seq(n, k requires 0 <= k < n => [Chars[k]])
  }

  /** The first n letters come in ascending order, so they are distinct. */
  lemma LettersSorted(n: nat)
    requires n <= |Chars|
    ensures StrictlySorted(Letters(n))
    ensures "" !in Letters(n)
  {
    var ls := Letters(n);
    forall i, j | 0 <= i < j < n ensures Less(ls[i], ls[j]) {
      CharsOrdered(i, j);
      assert ls[i][0] == Chars[i] && ls[j][0] == Chars[j];
    }
  }

  // ---------------------------------------------------------------------
  // Block geometry: the origins `range(0, n, m)` and the block of a cell
  // ---------------------------------------------------------------------

  /** x is a value that `range(0, n, m)` produces when x < n. */
  predicate IsMultiple(x: nat, m: nat)
    requires m > 0
    decreases x
  {
    x == 0 || (x >= m && IsMultiple(x - m, m))
  }

  /** The origin of the band of width m holding index a: the x of
      `range(0, n, m)` with `0 <= a - x < m`. */
  function BlockStart(a: nat, m: nat): (x: nat)
    requires m > 0
    ensures x <= a < x + m
    ensures IsMultiple(x, m)
    decreases a
  {
    if a < m then 0 else m + BlockStart(a - m, m)
  }

  /** The loop test `0 <= a - x < m` holds for exactly one origin x. */
  lemma {:induction false} BlockStartUnique(x: nat, a: nat, m: nat)
    requires m > 0 && IsMultiple(x, m) && x <= a < x + m
    ensures BlockStart(a, m) == x
    decreases x
  {
    if x != 0 {
      BlockStartUnique(x - m, a - m, m);
    }
  }

  lemma {:induction false} MultipleGap(x: nat, y: nat, m: nat)
    requires m > 0 && IsMultiple(x, m) && IsMultiple(y, m) && x < y
    ensures x + m <= y
    decreases y
  {
    if x != 0 {
      MultipleGap(x - m, y - m, m);
    }
  }

  lemma {:induction false} MultipleOfProduct(k: nat, m: nat)
    requires m > 0
    ensures IsMultiple(k * m, m)
    decreases k
  {
    if k > 0 {
      assert k * m - m == (k - 1) * m;
      MultipleOfProduct(k - 1, m);
    }
  }

  /** Every origin x < n leaves room for a whole block: x + m <= n. */
  lemma OriginFits(x: nat, n: nat)
    requires ValidSize(n)
    requires IsMultiple(x, BlockSize(n)) && x < n
    ensures x + BlockSize(n) <= n
  {
    var m := BlockSize(n);
    MultipleOfProduct(m, m);
    MultipleGap(x, n, m);
  }

  // ---------------------------------------------------------------------
  // Rows, columns and blocks
  // ---------------------------------------------------------------------

  function Column(g: Grid, j: nat): (col: seq<Cell>)
    requires forall i :: 0 <= i < |g| ==> j < |g[i]|
    ensures |col| == |g| && forall i :: 0 <= i < |g| ==> col[i] == g[i][j]
  {
    seq(|g|, i requires 0 <= i < |g| => g[i][j])
  }

  /** Some cell of column j holds l. */
  predicate ColumnHas(g: Grid, j: nat, l: Cell)
    requires forall i :: 0 <= i < |g| ==> j < |g[i]|
  {
    exists i :: 0 <= i < |g| && g[i][j] == l
  }

  /** Some cell of the block holding (r, c) holds l. */
  predicate BlockHas(g: Grid, r: nat, c: nat, l: Cell)
    requires WellFormed(g) && r < |g| && c < |g|
  {
    var m := BlockSize(|g|);
    var x, y := BlockStart(r, m), BlockStart(c, m);
    exists i, j :: 0 <= i < |g| && 0 <= j < |g| && x <= i < x + m && y <= j < y + m && g[i][j] == l
  }

  /** The cells of rows x .. x+k-1 within columns y .. y+m-1, row by row:
      `[grid[x + i][y + j] for i in range(k) for j in range(m)]`. */
  function BlockRows(g: Grid, x: nat, y: nat, m: nat, k: nat): (cells: seq<Cell>)
    requires x + k <= |g| && forall i :: x <= i < x + k ==> y + m <= |g[i]|
    ensures |cells| == k * m
    decreases k
  {
    if k == 0 then [] else BlockRows(g, x, y, m, k - 1) + g[x + k - 1][y..y + m]
  }

  lemma {:induction false} BlockRowsHas(g: Grid, x: nat, y: nat, m: nat, k: nat, l: Cell)
    requires x + k <= |g| && forall i :: x <= i < x + k ==> y + m <= |g[i]|
    ensures l in BlockRows(g, x, y, m, k) <==>
              exists i, j :: x <= i < x + k && y <= j < y + m && g[i][j] == l
    decreases k
  {
    if k > 0 {
      BlockRowsHas(g, x, y, m, k - 1, l);
      var full := g[x + k - 1];
      var row := full[y..y + m];
      if l in row {
        var j :| 0 <= j < |row| && row[j] == l;
        assert full[y + j] == l;
      }
      forall j | y <= j < y + m && full[j] == l ensures l in row {
        assert row[j - y] == l;
      }
    }
  }

  /** The cells of the block whose top-left corner is (x, y). */
  function BlockItems(g: Grid, x: nat, y: nat): seq<Cell>
    requires WellFormed(g)
    requires x + BlockSize(|g|) <= |g| && y + BlockSize(|g|) <= |g|
  {
    BlockRows(g, x, y, BlockSize(|g|), BlockSize(|g|))
  }

  // ---------------------------------------------------------------------
  // is_solved
  // ---------------------------------------------------------------------

  /** `sorted(cells) == list(CHARS[:n])`: since the letters are sorted and
      distinct, this holds exactly when cells is a permutation of them. */
  predicate IsPermutationOfLetters(cells: seq<Cell>, n: nat)
    requires n <= |Chars|
  {
    multiset(cells) == multiset(Letters(n))
  }

  predicate HasEmptyCell(g: Grid)
  {
    exists i, j :: 0 <= i < |g| && 0 <= j < |g[i]| && g[i][j] == ""
  }

  /** `is_solved`: no empty cell, and every row, column and block is a
      permutation of the first n letters. */
  predicate IsSolved(g: Grid)
    requires WellFormed(g)
  {
    var n, m := |g|, BlockSize(|g|);
    && !HasEmptyCell(g)
    && (forall i :: 0 <= i < n ==> IsPermutationOfLetters(g[i], n))
    && (forall j :: 0 <= j < n ==> IsPermutationOfLetters(Column(g, j), n))
    && (forall x: nat, y: nat | x < n && y < n && IsMultiple(x, m) && IsMultiple(y, m) ::
          OriginFits(x, n); OriginFits(y, n);
          IsPermutationOfLetters(BlockItems(g, x, y), n))
  }

  /** A permutation of the letters has no empty cell. */
  lemma PermutationHasNoEmpty(cells: seq<Cell>, n: nat)
    requires n <= |Chars| && IsPermutationOfLetters(cells, n)
    ensures "" !in cells
  {
    LettersSorted(n);
    assert multiset(Letters(n))[""] == 0;
  }

  /** Cells as many as the distinct values ls, holding each of them, are a
      permutation of ls. */
  lemma {:induction false} CoverIsPermutation(cells: seq<Cell>, ls: seq<Cell>)
    requires |cells| == |ls| && (forall i, j :: 0 <= i < j < |ls| ==> ls[i] != ls[j])
    requires forall l :: l in ls ==> l in cells
    ensures multiset(cells) == multiset(ls)
    decreases |ls|
  {
    if ls != [] {
      var l := ls[0];
      var k := IndexOf(cells, l);
      var rest := cells[..k] + cells[k + 1..];
      assert cells == cells[..k] + [l] + cells[k + 1..];
      assert multiset(cells) == multiset(rest) + multiset{l};
      forall x | x in ls[1..] ensures x in rest {
        var p :| 0 <= p < |ls[1..]| && ls[1..][p] == x;
        assert ls[p + 1] == x && x != l;
        assert x in ls;
        var q :| 0 <= q < |cells| && cells[q] == x;
        if q < k {
          assert rest[q] == x;
        } else {
          assert q != k && rest[q - 1] == x;
        }
      }
      CoverIsPermutation(rest, ls[1..]);
      assert ls == [l] + ls[1..];
    }
  }

  /** The scan for empty cells at the start of `is_solved` never decides the
      answer: the grid is solved exactly when all rows, columns and blocks are
      permutations of the first n letters. */
  lemma SolvedIffConstraints(g: Grid)
    requires WellFormed(g)
    ensures IsSolved(g) <==>
      var n, m := |g|, BlockSize(|g|);
      && (forall i :: 0 <= i < n ==> IsPermutationOfLetters(g[i], n))
      && (forall j :: 0 <= j < n ==> IsPermutationOfLetters(Column(g, j), n))
      && (forall x: nat, y: nat | x < n && y < n && IsMultiple(x, m) && IsMultiple(y, m) ::
            OriginFits(x, n); OriginFits(y, n);
            IsPermutationOfLetters(BlockItems(g, x, y), n))
  {
    var n := |g|;
    if forall i :: 0 <= i < n ==> IsPermutationOfLetters(g[i], n) {
      forall i, j | 0 <= i < n && 0 <= j < |g[i]| ensures g[i][j] != "" {
        PermutationHasNoEmpty(g[i], n);
        assert g[i][j] in g[i];
      }
    }
  }

  // ---------------------------------------------------------------------
  // extensions and its helpers
  // ---------------------------------------------------------------------

  function IndexOf(s: seq<Cell>, v: Cell): (k: nat)
    requires v in s
    ensures k < |s| && s[k] == v
    ensures forall j :: 0 <= j < k ==> s[j] != v
  {
    if s[0] == v then 0 else 1 + IndexOf(s[1..], v)
  }

  /** Row-major precedence of cells. */
  predicate Before(i: nat, j: nat, r: nat, c: nat)
  {
    i < r || (i == r && j < c)
  }

  function FirstEmptyFrom(g: Grid, r: nat): (p: Option<(nat, nat)>)
    requires WellFormed(g)
    ensures p.Some? ==> r <= p.value.0 < |g| && p.value.1 < |g| && g[p.value.0][p.value.1] == ""
    ensures p.Some? ==> forall i, j :: r <= i < |g| && 0 <= j < |g| && Before(i, j, p.value.0, p.value.1) ==> g[i][j] != ""
    ensures p.None? ==> forall i, j :: r <= i < |g| && 0 <= j < |g| ==> g[i][j] != ""
    decreases |g| - r
  {
    if r >= |g| then None
    else if "" in g[r] then Some((r, IndexOf(g[r], "")))
    else FirstEmptyFrom(g, r + 1)
  }

  /** The search at the start of `extensions`: the first row holding an empty
      cell, and the first empty cell in it. */
  function FirstEmpty(g: Grid): (p: Option<(nat, nat)>)
    requires WellFormed(g)
    ensures p.None? <==> !HasEmptyCell(g)
    ensures p.Some? ==> p.value.0 < |g| && p.value.1 < |g| && g[p.value.0][p.value.1] == ""
    ensures p.Some? ==> forall i, j :: 0 <= i < |g| && 0 <= j < |g| && Before(i, j, p.value.0, p.value.1) ==> g[i][j] != ""
  {
    FirstEmptyFrom(g, 0)
  }

  /** A letter may go into (r, c) when it is not yet in the cell's row,
      column or block. */
  predicate Allowed(g: Grid, r: nat, c: nat, l: Cell)
    requires WellFormed(g) && r < |g| && c < |g|
  {
    l !in g[r] && !ColumnHas(g, c, l) && !BlockHas(g, r, c, l)
  }

  function KeepAllowed(ls: seq<Cell>, g: Grid, r: nat, c: nat): (kept: seq<Cell>)
    requires WellFormed(g) && r < |g| && c < |g|
    ensures forall l :: l in kept <==> l in ls && Allowed(g, r, c, l)
  {
    if ls == [] then []
    else (if Allowed(g, r, c, ls[0]) then [ls[0]] else []) + KeepAllowed(ls[1..], g, r, c)
  }

  /** What `_possible_letters` returns: the first n letters, in order, that
      are allowed at (r, c). */
  function Candidates(g: Grid, r: nat, c: nat): seq<Cell>
    requires WellFormed(g) && r < |g| && c < |g|
  {
    KeepAllowed(Letters(|g|), g, r, c)
  }

  lemma {:induction false} KeepAllowedSorted(ls: seq<Cell>, g: Grid, r: nat, c: nat)
    requires WellFormed(g) && r < |g| && c < |g|
    requires StrictlySorted(ls)
    ensures StrictlySorted(KeepAllowed(ls, g, r, c))
    decreases |ls|
  {
    if ls != [] {
      var rest := KeepAllowed(ls[1..], g, r, c);
      KeepAllowedSorted(ls[1..], g, r, c);
      forall y | y in rest ensures Less(ls[0], y) {
        var k :| 0 <= k < |ls[1..]| && ls[1..][k] == y;
        assert ls[k + 1] == y;
      }
    }
  }

  /** `_possible_letters` returns, in ascending order and without repeats,
      exactly the first n letters that are not in the row, the column or the
      block of (r, c). */
  lemma CandidatesExactly(g: Grid, r: nat, c: nat)
    requires WellFormed(g) && r < |g| && c < |g|
    ensures StrictlySorted(Candidates(g, r, c))
    ensures forall l :: l in Candidates(g, r, c) <==>
              l in Letters(|g|) && l !in g[r] && !ColumnHas(g, c, l) && !BlockHas(g, r, c, l)
  {
    LettersSorted(|g|);
    KeepAllowedSorted(Letters(|g|), g, r, c);
  }

  /** `_extend`: a copy of the grid with (r, c) set to l. */
  function Extend(g: Grid, l: Cell, r: nat, c: nat): (h: Grid)
    requires WellFormed(g) && r < |g| && c < |g|
    ensures WellFormed(h) && |h| == |g|
    ensures h[r][c] == l
    ensures forall i, j :: 0 <= i < |g| && 0 <= j < |g| && (i != r || j != c) ==> h[i][j] == g[i][j]
  {
    g[r := g[r][c := l]]
  }

  /** `extensions`: fill the first empty cell with each allowed letter in turn;
      no empty cell means no extension. */
  function Extensions(g: Grid): seq<Grid>
    requires WellFormed(g)
  {
    match FirstEmpty(g)
    case None => []
    case Some((r, c)) =>
      var ls := Candidates(g, r, c);
      seq(|ls|, k requires 0 <= k < |ls| => Extend(g, ls[k], r, c))
  }

  /** `extensions` is empty exactly when there is no empty cell or the first
      empty cell admits no letter. */
  lemma ExtensionsEmpty(g: Grid)
    requires WellFormed(g)
    ensures Extensions(g) == [] <==>
              !HasEmptyCell(g) || Candidates(g, FirstEmpty(g).value.0, FirstEmpty(g).value.1) == []
  {
  }

  /** Each extension is the grid with its first empty cell (row-major) set to
      a letter allowed there; every other cell is unchanged. */
  lemma ExtensionFillsFirstEmpty(g: Grid, r: nat, c: nat, h: Grid)
    requires WellFormed(g) && FirstEmpty(g) == Some((r, c))
    requires h in Extensions(g)
    ensures WellFormed(h) && |h| == |g| && g[r][c] == ""
    ensures h[r][c] in Letters(|g|) && Allowed(g, r, c, h[r][c])
    ensures forall i, j :: 0 <= i < |g| && 0 <= j < |g| && (i != r || j != c) ==> h[i][j] == g[i][j]
  {
    var ls := Candidates(g, r, c);
    CandidatesExactly(g, r, c);
    var k :| 0 <= k < |ls| && h == Extend(g, ls[k], r, c);
    assert ls[k] in ls;
  }

  /** The extensions come in ascending order of the letter written. */
  lemma ExtensionsAscending(g: Grid, r: nat, c: nat)
    requires WellFormed(g) && FirstEmpty(g) == Some((r, c))
    ensures forall k1, k2 :: 0 <= k1 < k2 < |Extensions(g)| ==>
              Less(Extensions(g)[k1][r][c], Extensions(g)[k2][r][c])
  {
    CandidatesExactly(g, r, c);
  }

  /** Every letter allowed in the first empty cell yields an extension. */
  lemma ExtensionsComplete(g: Grid, r: nat, c: nat, l: Cell)
    requires WellFormed(g) && FirstEmpty(g) == Some((r, c))
    requires l in Letters(|g|) && Allowed(g, r, c, l)
    ensures Extend(g, l, r, c) in Extensions(g)
  {
    var ls := Candidates(g, r, c);
    CandidatesExactly(g, r, c);
    var k :| 0 <= k < |ls| && ls[k] == l;
    assert Extensions(g)[k] == Extend(g, l, r, c);
  }

  // ---------------------------------------------------------------------
  // _possible_letters, as the loops that remove letters from a list
  // ---------------------------------------------------------------------

  /** `lst.remove(v)`, with the ValueError for a missing v caught: the first
      occurrence of v is removed, if there is one. */
  function RemoveFirst(s: seq<Cell>, v: Cell): seq<Cell>
  {
    if s == [] then []
    else if s[0] == v then s[1..]
    else [s[0]] + RemoveFirst(s[1..], v)
  }

  /** RemoveFirst leaves a list without v alone, and otherwise cuts out the
      element at the first index of v. */
  lemma {:induction false} RemoveFirstCutsFirst(s: seq<Cell>, v: Cell)
    ensures v !in s ==> RemoveFirst(s, v) == s
    ensures v in s ==> RemoveFirst(s, v) == s[..IndexOf(s, v)] + s[IndexOf(s, v) + 1..]
  {
    if s != [] && s[0] != v {
      var t := s[1..];
      RemoveFirstCutsFirst(t, v);
      if v in s {
        assert v in t && IndexOf(s, v) == 1 + IndexOf(t, v);
        assert s[..IndexOf(s, v)] == [s[0]] + t[..IndexOf(t, v)];
        assert s[IndexOf(s, v) + 1..] == t[IndexOf(t, v) + 1..];
      } else {
        assert s == [s[0]] + t;
      }
    }
  }

  predicate Distinct(s: seq<Cell>)
  {
    forall i, j :: 0 <= i < j < |s| ==> s[i] != s[j]
  }

  /** The members of ls that are not in removed, in their order. */
  function Without(ls: seq<Cell>, removed: seq<Cell>): (kept: seq<Cell>)
    ensures forall l :: l in kept <==> l in ls && l !in removed
  {
    if ls == [] then []
    else (if ls[0] in removed then [] else [ls[0]]) + Without(ls[1..], removed)
  }

  lemma {:induction false} WithoutNothing(ls: seq<Cell>)
    ensures Without(ls, []) == ls
    decreases |ls|
  {
    if ls != [] {
      WithoutNothing(ls[1..]);
    }
  }

  lemma {:induction false} WithoutIgnores(ls: seq<Cell>, removed: seq<Cell>, v: Cell)
    requires v !in ls
    ensures Without(ls, removed + [v]) == Without(ls, removed)
    decreases |ls|
  {
    if ls != [] {
      WithoutIgnores(ls[1..], removed, v);
    }
  }

  /** Removing one more value from a list of distinct values is filtering it
      out as well. */
  lemma {:induction false} RemoveFirstWithout(ls: seq<Cell>, removed: seq<Cell>, v: Cell)
    requires Distinct(ls)
    ensures RemoveFirst(Without(ls, removed), v) == Without(ls, removed + [v])
    decreases |ls|
  {
    if ls != [] {
      var rest := Without(ls[1..], removed);
      assert Distinct(ls[1..]);
      if ls[0] in removed {
        assert Without(ls, removed) == rest;
        RemoveFirstWithout(ls[1..], removed, v);
      } else if ls[0] == v {
        assert v !in ls[1..];
        WithoutIgnores(ls[1..], removed, v);
        assert Without(ls, removed) == [v] + rest;
        assert RemoveFirst([v] + rest, v) == rest;
      } else {
        RemoveFirstWithout(ls[1..], removed, v);
        assert Without(ls, removed) == [ls[0]] + rest;
        assert ([ls[0]] + rest)[1..] == rest;
        assert RemoveFirst([ls[0]] + rest, v) == [ls[0]] + RemoveFirst(rest, v);
      }
    }
  }

  /** Filtering out exactly the values in the row, column or block of (r, c)
      keeps the allowed ones. */
  lemma {:induction false} WithoutIsKeepAllowed(ls: seq<Cell>, removed: seq<Cell>, g: Grid, r: nat, c: nat)
    requires WellFormed(g) && r < |g| && c < |g|
    requires forall v :: v in removed <==> !Allowed(g, r, c, v)
    ensures Without(ls, removed) == KeepAllowed(ls, g, r, c)
    decreases |ls|
  {
    if ls != [] {
      WithoutIsKeepAllowed(ls[1..], removed, g, r, c);
    }
  }

  /** `for v in vs: lst.remove(v)`, each ValueError caught. */
  method RemoveEach(lst: seq<Cell>, vs: seq<Cell>, ghost letters: seq<Cell>, ghost seen: seq<Cell>)
    returns (out: seq<Cell>)
    requires Distinct(letters) && lst == Without(letters, seen)
    ensures out == Without(letters, seen + vs)
  {
    out := lst;
    var k := 0;
    assert seen + vs[..0] == seen;
    while k < |vs|
      invariant 0 <= k <= |vs|
      invariant out == Without(letters, seen + vs[..k])
    {
      RemoveFirstWithout(letters, seen + vs[..k], vs[k]);
      out := RemoveFirst(out, vs[k]);
      assert seen + vs[..k + 1] == seen + vs[..k] + [vs[k]];
      k := k + 1;
    }
    assert vs[..|vs|] == vs;
  }

  /** `for row in grid: lst.remove(row[c])`, each ValueError caught. */
  method RemoveColumn(g: Grid, c: nat, lst: seq<Cell>, ghost letters: seq<Cell>, ghost seen: seq<Cell>)
    returns (out: seq<Cell>)
    requires WellFormed(g) && c < |g|
    requires Distinct(letters) && lst == Without(letters, seen)
    ensures out == Without(letters, seen + Column(g, c))
  {
    ghost var col := Column(g, c);
    out := lst;
    var k := 0;
    assert seen + col[..0] == seen;
    while k < |g|
      invariant 0 <= k <= |g|
      invariant out == Without(letters, seen + col[..k])
    {
      RemoveFirstWithout(letters, seen + col[..k], g[k][c]);
      out := RemoveFirst(out, g[k][c]);
      assert seen + col[..k + 1] == seen + col[..k] + [g[k][c]];
      k := k + 1;
    }
    assert col[..|g|] == col;
  }

  /** The two innermost loops of `_possible_letters`: remove the values of
      the block at (x, y), row by row. */
  method RemoveBlockAt(g: Grid, x: nat, y: nat, lst: seq<Cell>, ghost letters: seq<Cell>, ghost seen: seq<Cell>)
    returns (out: seq<Cell>)
    requires WellFormed(g) && x + BlockSize(|g|) <= |g| && y + BlockSize(|g|) <= |g|
    requires Distinct(letters) && lst == Without(letters, seen)
    ensures out == Without(letters, seen + BlockItems(g, x, y))
  {
    var m := BlockSize(|g|);
    out := lst;
    var i := 0;
    assert seen + BlockRows(g, x, y, m, 0) == seen;
    while i < m
      invariant 0 <= i <= m
      invariant out == Without(letters, seen + BlockRows(g, x, y, m, i))
    {
      out := RemoveEach(out, g[x + i][y..y + m], letters, seen + BlockRows(g, x, y, m, i));
      assert seen + BlockRows(g, x, y, m, i + 1) == seen + BlockRows(g, x, y, m, i) + g[x + i][y..y + m];
      i := i + 1;
    }
  }

  /** The inner loop over the block origins of one block row x: it removes
      the letters of the block of (r, c) when that block starts in row x. */
  method RemoveBlockInRow(g: Grid, r: nat, c: nat, x: nat, lst: seq<Cell>, ghost letters: seq<Cell>,
                          ghost seen: seq<Cell>)
    returns (out: seq<Cell>)
    requires WellFormed(g) && r < |g| && c < |g| && x < |g| && IsMultiple(x, BlockSize(|g|))
    requires Distinct(letters) && lst == Without(letters, seen)
    ensures var m := BlockSize(|g|);
      var x0, y0 := BlockStart(r, m), BlockStart(c, m);
      x0 + m <= |g| && y0 + m <= |g| &&
      out == Without(letters, seen + (if x == x0 then BlockItems(g, x0, y0) else []))
  {
    var n := |g|;
    var m := BlockSize(n);
    ghost var x0, y0 := BlockStart(r, m), BlockStart(c, m);
    OriginFits(x0, n);
    OriginFits(y0, n);
    OriginFits(x, n);
    ghost var block := BlockItems(g, x0, y0);
    assert seen + [] == seen;
    out := lst;
    var y := 0;
    while y < n
      invariant y <= n && IsMultiple(y, m)
      invariant out == Without(letters, seen + (if x == x0 && y0 < y then block else []))
    {
      OriginFits(y, n);
      if 0 <= r - x < m && 0 <= c - y < m {
        BlockStartUnique(x, r, m);
        BlockStartUnique(y, c, m);
        out := RemoveBlockAt(g, x, y, out, letters, seen);
      }
      if y < y0 {
        MultipleGap(y, y0, m);
      }
      y := y + m;
    }
  }

  /** The loops over the block origins of `_possible_letters`: the one block
      that holds (r, c) has its values removed, row by row. */
  method RemoveBlock(g: Grid, r: nat, c: nat, lst: seq<Cell>, ghost letters: seq<Cell>, ghost seen: seq<Cell>)
    returns (out: seq<Cell>)
    requires WellFormed(g) && r < |g| && c < |g|
    requires Distinct(letters) && lst == Without(letters, seen)
    ensures var m := BlockSize(|g|);
      var x0, y0 := BlockStart(r, m), BlockStart(c, m);
      x0 + m <= |g| && y0 + m <= |g| &&
      out == Without(letters, seen + BlockItems(g, x0, y0))
  {
    var n := |g|;
    var m := BlockSize(n);
    ghost var x0, y0 := BlockStart(r, m), BlockStart(c, m);
    OriginFits(x0, n);
    OriginFits(y0, n);
    ghost var block := BlockItems(g, x0, y0);
    assert seen + [] == seen;
    out := lst;
    var x := 0;
    while x < n
      invariant x <= n && IsMultiple(x, m)
      invariant out == Without(letters, seen + (if x0 < x then block else []))
    {
      OriginFits(x, n);
      ghost var before := seen + (if x0 < x then block else []);
      out := RemoveBlockInRow(g, r, c, x, out, letters, before);
      if x0 < x {
        assert before + [] == seen + block;
      } else if x == x0 {
        assert before + block == seen + block;
      } else {
        MultipleGap(x, x0, m);
        assert before + [] == seen + [];
      }
      x := x + m;
    }
  }

  /** `_possible_letters`: start from the first n letters and remove every
      value in the row, the column and the block of (r, c). */
  method PossibleLetters(g: Grid, r: nat, c: nat) returns (lst: seq<Cell>)
    requires WellFormed(g) && r < |g| && c < |g|
    ensures lst == Candidates(g, r, c)
  {
    var n := |g|;
    ghost var letters := Letters(n);
    LettersSorted(n);
    SortedDistinct(letters);
    lst := Letters(n);
    WithoutNothing(letters);
    assert [] + g[r] == g[r];
    lst := RemoveEach(lst, g[r], letters, []);

    ghost var col := Column(g, c);
    lst := RemoveColumn(g, c, lst, letters, g[r]);
    lst := RemoveBlock(g, r, c, lst, letters, g[r] + col);
    var m := BlockSize(n);
    ghost var removed := g[r] + col + BlockItems(g, BlockStart(r, m), BlockStart(c, m));
    RemovedAreDisallowed(g, r, c);
    WithoutIsKeepAllowed(letters, removed, g, r, c);
  }

  /** The values `_possible_letters` removes are exactly the ones that are
      not allowed at (r, c). */
  lemma RemovedAreDisallowed(g: Grid, r: nat, c: nat)
    requires WellFormed(g) && r < |g| && c < |g|
    ensures var m := BlockSize(|g|);
      var x0, y0 := BlockStart(r, m), BlockStart(c, m);
      x0 + m <= |g| && y0 + m <= |g| &&
      forall v :: v in g[r] + Column(g, c) + BlockItems(g, x0, y0) <==> !Allowed(g, r, c, v)
  {
    var m := BlockSize(|g|);
    var x0, y0 := BlockStart(r, m), BlockStart(c, m);
    OriginFits(x0, |g|);
    OriginFits(y0, |g|);
    forall v ensures v in g[r] + Column(g, c) + BlockItems(g, x0, y0) <==> !Allowed(g, r, c, v) {
      BlockRowsHas(g, x0, y0, m, m, v);
    }
  }

  /** The search loop at the start of `extensions`: the first row that holds
      an empty cell, and `row.index('')` in it. */
  method FindFirstEmpty(g: Grid) returns (p: Option<(nat, nat)>)
    requires WellFormed(g)
    ensures p == FirstEmpty(g)
  {
    p := None;
    var i := 0;
    while i < |g|
      invariant 0 <= i <= |g|
      invariant FirstEmptyFrom(g, i) == FirstEmpty(g)
    {
      if "" in g[i] {
        p := Some((i, IndexOf(g[i], "")));
        return;
      }
      i := i + 1;
    }
  }

  /** `extensions`, as the source computes it: the search loop, then one
      extension per letter `_possible_letters` returns. */
  method ComputeExtensions(g: Grid) returns (ext: seq<Grid>)
    requires WellFormed(g)
    ensures ext == Extensions(g)
  {
    var p := FindFirstEmpty(g);
    if p.None? {
      return [];
    }
    var (r, c) := p.value;
    var letters := PossibleLetters(g, r, c);
    ext := seq(|letters|, k requires 0 <= k < |letters| => Extend(g, letters[k], r, c));
  }

  // ---------------------------------------------------------------------
  // The number of empty cells, which every extension decreases
  // ---------------------------------------------------------------------

  function EmptyInRow(row: seq<Cell>): nat
  {
    if row == [] then 0 else (if row[0] == "" then 1 else 0) + EmptyInRow(row[1..])
  }

  function EmptyCells(g: Grid): nat
  {
    if g == [] then 0 else EmptyInRow(g[0]) + EmptyCells(g[1..])
  }

  lemma {:induction false} FillRow(row: seq<Cell>, c: nat, l: Cell)
    requires c < |row| && row[c] == "" && l != ""
    ensures EmptyInRow(row[c := l]) + 1 == EmptyInRow(row)
    decreases c
  {
    if c > 0 {
      assert row[c := l][1..] == row[1..][c - 1 := l];
      FillRow(row[1..], c - 1, l);
    } else {
      assert row[c := l][1..] == row[1..];
    }
  }

  lemma {:induction false} ReplaceRow(g: Grid, r: nat, row: seq<Cell>)
    requires r < |g|
    ensures EmptyCells(g[r := row]) + EmptyInRow(g[r]) == EmptyCells(g) + EmptyInRow(row)
    decreases r
  {
    if r > 0 {
      assert g[r := row][1..] == g[1..][r - 1 := row];
      ReplaceRow(g[1..], r - 1, row);
    } else {
      assert g[r := row][1..] == g[1..];
    }
  }

  /** Writing a non-empty value into an empty cell removes one empty cell. */
  lemma FillDecreases(g: Grid, l: Cell, r: nat, c: nat)
    requires WellFormed(g) && r < |g| && c < |g| && g[r][c] == "" && l != ""
    ensures EmptyCells(Extend(g, l, r, c)) + 1 == EmptyCells(g)
  {
    FillRow(g[r], c, l);
    ReplaceRow(g, r, g[r][c := l]);
  }

  /** Every extension has one empty cell fewer than its parent: the measure
      on which the exhaustive search terminates. */
  lemma ExtensionsDecrease(g: Grid)
    requires WellFormed(g)
    ensures forall h :: h in Extensions(g) ==> WellFormed(h) && EmptyCells(h) < EmptyCells(g)
  {
    if HasEmptyCell(g) {
      var (r, c) := FirstEmpty(g).value;
      var ls := Candidates(g, r, c);
      LettersSorted(|g|);
      forall h | h in Extensions(g) ensures WellFormed(h) && EmptyCells(h) < EmptyCells(g) {
        var k :| 0 <= k < |ls| && h == Extend(g, ls[k], r, c);
        assert ls[k] in Letters(|g|);
        FillDecreases(g, ls[k], r, c);
      }
    }
  }

  // ---------------------------------------------------------------------
  // move and is_valid
  // ---------------------------------------------------------------------

  /** The five `replace` calls that strip the punctuation of "(r, c) -> L". */
  function Clean(text: string): (r: string)
    ensures '(' !in r && ')' !in r && '-' !in r && '>' !in r && ',' !in r
  {
    RemoveChar(RemoveChar(RemoveChar(RemoveChar(RemoveChar(text, '('), ')'), '-'), '>'), ',')
  }

  lemma CleanAppend(a: string, b: string)
    ensures Clean(a + b) == Clean(a) + Clean(b)
  {
    RemoveCharAppend(a, b, '(');
    var a1, b1 := RemoveChar(a, '('), RemoveChar(b, '(');
    RemoveCharAppend(a1, b1, ')');
    var a2, b2 := RemoveChar(a1, ')'), RemoveChar(b1, ')');
    RemoveCharAppend(a2, b2, '-');
    var a3, b3 := RemoveChar(a2, '-'), RemoveChar(b2, '-');
    RemoveCharAppend(a3, b3, '>');
    var a4, b4 := RemoveChar(a3, '>'), RemoveChar(b3, '>');
    RemoveCharAppend(a4, b4, ',');
  }

  lemma CleanUnchanged(s: string)
    requires '(' !in s && ')' !in s && '-' !in s && '>' !in s && ',' !in s
    ensures Clean(s) == s
  {
    RemoveCharAbsent(s, '(');
    RemoveCharAbsent(s, ')');
    RemoveCharAbsent(s, '-');
    RemoveCharAbsent(s, '>');
    RemoveCharAbsent(s, ',');
  }

  lemma RemoveOne(x: char, c: char)
    ensures RemoveChar([x], c) == if x == c then [] else [x]
  {
    assert [x][1..] == [];
  }

  lemma CleanOne(x: char)
    ensures Clean([x]) == if x in "()->," then [] else [x]
  {
    RemoveOne(x, '(');
    RemoveOne(x, ')');
    RemoveOne(x, '-');
    RemoveOne(x, '>');
    RemoveOne(x, ',');
    assert RemoveChar([], ')') == [];
    assert RemoveChar([], '-') == [];
    assert RemoveChar([], '>') == [];
    assert RemoveChar([], ',') == [];
  }

  lemma CleanOpen()
    ensures Clean("(") == ""
  {
    CleanOne('(');
  }

  lemma CleanComma()
    ensures Clean(", ") == " "
  {
    CleanOne(',');
    CleanOne(' ');
    CleanAppend([','], [' ']);
  }

  lemma CleanClose()
    ensures Clean(") ") == " "
  {
    CleanOne(')');
    CleanOne(' ');
    CleanAppend([')'], [' ']);
  }

  lemma CleanDashGreater()
    ensures Clean("->") == ""
  {
    CleanOne('-');
    CleanOne('>');
    CleanAppend("-", ">");
  }

  lemma CleanArrow()
    ensures Clean("-> ") == " "
  {
    var a, b := "->", " ";
    CleanDashGreater();
    CleanOne(' ');
    CleanAppend(a, b);
    assert a + b == "-> ";
    assert Clean(a + b) == " ";
  }

  /** The tokens a move is read from. */
  function MoveTokens(text: string): seq<string>
  {
    Split(Clean(text))
  }

  /** The checks `move` and `is_valid` share, in their order: a row and a
      column index (IndexError when a token is missing, ValueError when it is
      not a number), both on the board, a last token that is a substring of
      CHARS, not yet in the row, the column or the block, and an empty target
      cell. The result is the cell and the text to write into it. */
  function ParseMove(g: Grid, text: string): (r: Result<(nat, nat, Cell)>)
    requires WellFormed(g)
    ensures r == Raise(IndexError) <==>
              var t := MoveTokens(text);
              |t| == 0 || (|t| == 1 && ParseInt(t[0]).Some?)
    ensures r.Raise? ==> r.error != AttributeError
    ensures r.Ok? ==>
              var (row, col, l) := r.value;
              var t := MoveTokens(text);
              && |t| >= 2 && ParseInt(t[0]) == Some(row) && ParseInt(t[1]) == Some(col)
              && l == t[|t| - 1]
              && row < |g| && col < |g| && g[row][col] == ""
              && l != "" && IsSubstring(l, Chars) && Allowed(g, row, col, l)
    ensures var t := MoveTokens(text);
            |t| >= 2 && ParseInt(t[0]).Some? && ParseInt(t[1]).Some? ==>
              var (row, col, l) := (ParseInt(t[0]).value, ParseInt(t[1]).value, t[|t| - 1]);
              row < |g| && col < |g| && g[row][col] == "" && IsSubstring(l, Chars) && Allowed(g, row, col, l) ==>
                r == Ok((row, col, l))
  {
    var t := MoveTokens(text);
    if |t| == 0 then Raise(IndexError)
    else if ParseInt(t[0]).None? then Raise(ValueError)
    else if |t| == 1 then Raise(IndexError)
    else if ParseInt(t[1]).None? then Raise(ValueError)
    else
      var row, col, l := ParseInt(t[0]).value, ParseInt(t[1]).value, t[|t| - 1];
      if row >= |g| || col >= |g| then Raise(ValueError)
      else if !IsSubstring(l, Chars) then Raise(ValueError)
      else if !Allowed(g, row, col, l) then Raise(ValueError)
      else if g[row][col] != "" then Raise(ValueError)
      else Ok((row, col, l))
  }

  /** `is_valid`: the checks pass, or fail (False), or a token is missing
      (IndexError, which `is_valid` does not catch). */
  function IsValid(g: Grid, text: string): (r: Result<bool>)
    requires WellFormed(g)
    ensures r.Raise? ==> r.error == IndexError
  {
    match ParseMove(g, text)
    case Ok(_) => Ok(true)
    case Raise(IndexError) => Raise(IndexError)
    case Raise(_) => Ok(false)
  }

  /** `move`: the grid with the parsed cell filled, or the exception. */
  function Move(g: Grid, text: string): (r: Result<Grid>)
    requires WellFormed(g)
  {
    match ParseMove(g, text)
    case Ok((row, col, l)) => Ok(Extend(g, l, row, col))
    case Raise(e) => Raise(e)
  }

  /** `move` succeeds exactly when `is_valid` says True, raises ValueError
      exactly when it says False, and both raise IndexError on the same
      texts. */
  lemma MoveAgreesWithIsValid(g: Grid, text: string)
    requires WellFormed(g)
    ensures Move(g, text).Ok? <==> IsValid(g, text) == Ok(true)
    ensures Move(g, text) == Raise(ValueError) <==> IsValid(g, text) == Ok(false)
    ensures Move(g, text) == Raise(IndexError) <==> IsValid(g, text) == Raise(IndexError)
  {
  }

  /** A successful move writes a non-empty substring of CHARS, allowed by the
      row, column and block constraints, into one empty cell and changes
      nothing else; the grid keeps its shape and has one empty cell fewer. */
  lemma MoveFillsOneCell(g: Grid, text: string)
    requires WellFormed(g) && Move(g, text).Ok?
    ensures var h := Move(g, text).value;
      && WellFormed(h) && |h| == |g|
      && EmptyCells(h) + 1 == EmptyCells(g)
      && exists r, c :: 0 <= r < |g| && 0 <= c < |g| && g[r][c] == "" && h[r][c] != ""
           && IsSubstring(h[r][c], Chars) && Allowed(g, r, c, h[r][c])
           && forall i, j :: 0 <= i < |g| && 0 <= j < |g| && (i != r || j != c) ==> h[i][j] == g[i][j]
  {
    var (r, c, l) := ParseMove(g, text).value;
    FillDecreases(g, l, r, c);
  }

  // ---------------------------------------------------------------------
  // __eq__ and hint_generator
  // ---------------------------------------------------------------------

  /** `__eq__`: same size and the same text in every cell. */
  predicate Equal(a: Grid, b: Grid)
    requires WellFormed(a) && WellFormed(b)
  {
    |a| == |b| && forall i, j :: 0 <= i < |a| && 0 <= j < |a| ==> a[i][j] == b[i][j]
  }

  /** On well-formed grids `__eq__` is equality of the grids. */
  lemma EqualIsEquality(a: Grid, b: Grid)
    requires WellFormed(a) && WellFormed(b)
    ensures Equal(a, b) <==> a == b
  {
    if Equal(a, b) {
      assert forall i :: 0 <= i < |a| ==> a[i] == b[i];
    }
  }

  const NoHint: string := "Hint Not Available"

  /** The hint text for writing l into (i, j). */
  function HintText(i: nat, j: nat, l: Cell): string
  {
    "(" + NatToString(i) + ", " + NatToString(j) + ") " + "-> " + l
  }

  /** The row-major scan of `hint_generator` from cell (i, j) on; b may be
      smaller than a, and then reading past its end raises IndexError. */
  function HintFrom(a: Grid, b: Grid, i: nat, j: nat): (r: Result<string>)
    requires WellFormed(a) && i <= |a| && j <= |a|
    ensures r.Ok? && r.value != NoHint ==>
              exists p, q :: i <= p < |a| && 0 <= q < |a| && p < |b| && q < |b[p]|
                && a[p][q] != b[p][q] && r.value == HintText(p, q, b[p][q])
    decreases |a| - i, |a| - j
  {
    if i == |a| then Ok(NoHint)
    else if j == |a| then HintFrom(a, b, i + 1, 0)
    else if i >= |b| || j >= |b[i]| then Raise(IndexError)
    else if a[i][j] != b[i][j] then Ok(HintText(i, j, b[i][j]))
    else HintFrom(a, b, i, j + 1)
  }

  /** `hint_generator`: the move that writes into the first cell (row-major)
      where the two grids differ, or "Hint Not Available". */
  function Hint(a: Grid, b: Grid): Result<string>
    requires WellFormed(a)
  {
    HintFrom(a, b, 0, 0)
  }

  lemma HintTextIsNotNoHint(i: nat, j: nat, l: Cell)
    ensures HintText(i, j, l) != NoHint
  {
    assert HintText(i, j, l)[0] == '(' && NoHint[0] == 'H';
  }

  /** Between grids of one size the scan never raises, and reports "Hint Not
      Available" only when every cell from (i, j) on agrees. */
  lemma {:induction false} HintFromSameSize(a: Grid, b: Grid, i: nat, j: nat)
    requires WellFormed(a) && WellFormed(b) && |a| == |b| && i <= |a| && j <= |a|
    ensures HintFrom(a, b, i, j).Ok?
    ensures HintFrom(a, b, i, j) == Ok(NoHint) <==>
              forall p, q :: 0 <= p < |a| && 0 <= q < |a| && Before(i, j, p, q + 1) ==> a[p][q] == b[p][q]
    decreases |a| - i, |a| - j
  {
    if i == |a| {
    } else if j == |a| {
      HintFromSameSize(a, b, i + 1, 0);
    } else if a[i][j] != b[i][j] {
      HintTextIsNotNoHint(i, j, b[i][j]);
    } else {
      HintFromSameSize(a, b, i, j + 1);
    }
  }

  /** The hint between two grids of one size is "Hint Not Available" exactly
      when they are equal. */
  lemma NoHintIffEqual(a: Grid, b: Grid)
    requires WellFormed(a) && WellFormed(b) && |a| == |b|
    ensures Hint(a, b).Ok?
    ensures Hint(a, b) == Ok(NoHint) <==> a == b
  {
    HintFromSameSize(a, b, 0, 0);
    EqualIsEquality(a, b);
  }

  /** The scan stops at the first difference, when it lies at or after (i, j). */
  lemma {:induction false} HintFindsFirstDifference(a: Grid, b: Grid, i: nat, j: nat, r: nat, c: nat)
    requires WellFormed(a) && WellFormed(b) && |a| == |b| && i <= |a| && j <= |a|
    requires r < |a| && c < |a| && a[r][c] != b[r][c] && Before(i, j, r, c + 1)
    requires forall p, q :: 0 <= p < |a| && 0 <= q < |a| && Before(p, q, r, c) ==> a[p][q] == b[p][q]
    ensures HintFrom(a, b, i, j) == Ok(HintText(r, c, b[r][c]))
    decreases |a| - i, |a| - j
  {
    if j == |a| {
      HintFindsFirstDifference(a, b, i + 1, 0, r, c);
    } else if i != r || j != c {
      assert Before(i, j, r, c);
      HintFindsFirstDifference(a, b, i, j + 1, r, c);
    }
  }

  lemma CleanJoin(p: string, q: string, cp: string, cq: string)
    requires Clean(p) == cp && Clean(q) == cq
    ensures Clean(p + q) == cp + cq
  {
    CleanAppend(p, q);
  }

  lemma CleanHintText(si: string, sj: string, l: string)
    requires Clean(si) == si && Clean(sj) == sj && Clean(l) == l
    ensures Clean("(" + si + ", " + sj + ") " + "-> " + l) == si + " " + sj + " " + " " + l
  {
    CleanOpen();
    CleanComma();
    CleanClose();
    CleanArrow();
    CleanJoin("(", si, [], si);
    assert [] + si == si;
    CleanJoin("(" + si, ", ", si, " ");
    CleanJoin("(" + si + ", ", sj, si + " ", sj);
    CleanJoin("(" + si + ", " + sj, ") ", si + " " + sj, " ");
    CleanJoin("(" + si + ", " + sj + ") ", "-> ", si + " " + sj + " ", " ");
    CleanJoin("(" + si + ", " + sj + ") " + "-> ", l, si + " " + sj + " " + " ", l);
  }

  /** After the punctuation is stripped, a hint is "i j  l". */
  lemma HintTextTokens(i: nat, j: nat, l: Cell)
    requires l != [] && NoSpace(l)
    requires '(' !in l && ')' !in l && '-' !in l && '>' !in l && ',' !in l
    ensures MoveTokens(HintText(i, j, l)) == [NatToString(i), NatToString(j), l]
  {
    var si, sj := NatToString(i), NatToString(j);
    DigitsNoSpace(si);
    DigitsNoSpace(sj);
    CleanUnchanged(si);
    CleanUnchanged(sj);
    CleanUnchanged(l);
    CleanHintText(si, sj, l);
    SplitThree(si, sj, l);
  }

  /** The hint for writing a letter into an empty cell where it is allowed
      parses back to that cell and letter. */
  lemma ParseHintText(g: Grid, r: nat, c: nat, k: nat)
    requires WellFormed(g) && r < |g| && c < |g| && k < |Chars| && g[r][c] == ""
    requires Allowed(g, r, c, [Chars[k]])
    ensures ParseMove(g, HintText(r, c, [Chars[k]])) == Ok((r, c, [Chars[k]]))
  {
    var l := [Chars[k]];
    HintTextTokens(r, c, l);
    ParseNatToString(r);
    ParseNatToString(c);
    CharIsSubstring(Chars, k);
  }

  /** The hint towards an extension names the cell it fills. */
  lemma HintOfExtension(g: Grid, h: Grid, r: nat, c: nat)
    requires WellFormed(g) && FirstEmpty(g) == Some((r, c)) && h in Extensions(g)
    ensures r < |g| && c < |g| && |h| == |g| && Hint(g, h) == Ok(HintText(r, c, h[r][c]))
  {
    ExtensionFillsFirstEmpty(g, r, c, h);
    HintFindsFirstDifference(g, h, 0, 0, r, c);
  }

  /** A grid that differs from g at most in cell (r, c) is g with that cell
      written. */
  lemma ExtendRebuilds(g: Grid, h: Grid, r: nat, c: nat)
    requires WellFormed(g) && WellFormed(h) && |h| == |g| && r < |g| && c < |g|
    requires forall i, j :: 0 <= i < |g| && 0 <= j < |g| && (i != r || j != c) ==> h[i][j] == g[i][j]
    ensures Extend(g, h[r][c], r, c) == h
  {
    var e := Extend(g, h[r][c], r, c);
    forall i | 0 <= i < |g| ensures e[i] == h[i] {
      assert |e[i]| == |h[i]|;
    }
  }

  /** The hint from a grid to one of its extensions is a valid move, and
      making it gives that extension back. */
  lemma HintRoundTrip(g: Grid, h: Grid)
    requires WellFormed(g) && h in Extensions(g)
    ensures Hint(g, h).Ok? && IsValid(g, Hint(g, h).value) == Ok(true)
    ensures Move(g, Hint(g, h).value) == Ok(h)
  {
    var (r, c) := FirstEmpty(g).value;
    ExtensionFillsFirstEmpty(g, r, c, h);
    HintOfExtension(g, h, r, c);
    var k :| 0 <= k < |g| && h[r][c] == [Chars[k]];
    ParseHintText(g, r, c, k);
    ExtendRebuilds(g, h, r, c);
  }

  // ---------------------------------------------------------------------
  // The examples in the documentation of is_solved and extensions
  // ---------------------------------------------------------------------

  lemma OriginsOfFour(x: nat)
    requires x < 4 && IsMultiple(x, 2)
    ensures x == 0 || x == 2
  {
    if x != 0 {
      assert IsMultiple(x - 2, 2);
    }
  }

  const SolvedFour: Grid := [["A", "B", "C", "D"], ["C", "D", "A", "B"], ["B", "A", "D", "C"], ["D", "C", "B", "A"]]

  const UnsolvedFour: Grid := [["A", "B", "C", "D"], ["C", "D", "A", "B"], ["B", "D", "A", "C"], ["D", "C", "B", "A"]]

  const PartialFour: Grid := [["A", "B", "C", "D"], ["C", "D", "A", "B"], ["B", "A", "", ""], ["D", "C", "", ""]]

  lemma ColumnOfFour(g: Grid, j: nat)
    requires WellFormed(g) && |g| == 4 && j < 4
    ensures Column(g, j) == [g[0][j], g[1][j], g[2][j], g[3][j]]
  {
  }

  lemma BlockOfFour(g: Grid, x: nat, y: nat)
    requires WellFormed(g) && |g| == 4 && x + 2 <= 4 && y + 2 <= 4
    ensures BlockItems(g, x, y) == [g[x][y], g[x][y + 1], g[x + 1][y], g[x + 1][y + 1]]
  {
    assert BlockRows(g, x, y, 2, 1) == [] + g[x][y..y + 2];
  }

  /** Four cells that hold each of the four letters are a permutation of
      them. */
  lemma FourLetters(cells: seq<Cell>)
    requires |cells| == 4 && "A" in cells && "B" in cells && "C" in cells && "D" in cells
    ensures IsPermutationOfLetters(cells, 4)
  {
    var ls := Letters(4);
    assert ls == ["A", "B", "C", "D"];
    LettersSorted(4);
    SortedDistinct(ls);
    CoverIsPermutation(cells, ls);
  }

  lemma SolvedFourRows()
    ensures WellFormed(SolvedFour)
    ensures forall i :: 0 <= i < 4 ==> IsPermutationOfLetters(SolvedFour[i], 4)
  {
    forall i | 0 <= i < 4 ensures IsPermutationOfLetters(SolvedFour[i], 4) {
      FourLetters(SolvedFour[i]);
    }
  }

  lemma SolvedFourColumns()
    ensures WellFormed(SolvedFour)
    ensures forall j :: 0 <= j < 4 ==> IsPermutationOfLetters(Column(SolvedFour, j), 4)
  {
    forall j | 0 <= j < 4 ensures IsPermutationOfLetters(Column(SolvedFour, j), 4) {
      ColumnOfFour(SolvedFour, j);
      FourLetters(Column(SolvedFour, j));
    }
  }

  lemma SolvedFourBlocks()
    ensures WellFormed(SolvedFour)
    ensures forall x: nat, y: nat | x < 4 && y < 4 && IsMultiple(x, 2) && IsMultiple(y, 2) ::
              x + 2 <= 4 && y + 2 <= 4 && IsPermutationOfLetters(BlockItems(SolvedFour, x, y), 4)
  {
    forall x: nat, y: nat | x < 4 && y < 4 && IsMultiple(x, 2) && IsMultiple(y, 2)
      ensures x + 2 <= 4 && y + 2 <= 4 && IsPermutationOfLetters(BlockItems(SolvedFour, x, y), 4)
    {
      OriginsOfFour(x);
      OriginsOfFour(y);
      BlockOfFour(SolvedFour, x, y);
      FourLetters(BlockItems(SolvedFour, x, y));
    }
  }

  /** The first example of `is_solved`: a filled 4-by-4 Latin square whose
      four blocks also hold every letter. */
  lemma SolvedFourIsSolved()
    ensures WellFormed(SolvedFour) && IsSolved(SolvedFour)
  {
    SolvedFourRows();
    SolvedFourColumns();
    SolvedFourBlocks();
    SolvedIffConstraints(SolvedFour);
  }

  /** The second example of `is_solved`: row 2 repeats no letter but column
      1 holds "D" twice. */
  lemma UnsolvedFourIsNotSolved()
    ensures WellFormed(UnsolvedFour) && !IsSolved(UnsolvedFour)
  {
    var g := UnsolvedFour;
    assert WellFormed(g);
    ColumnOfFour(g, 1);
    var col := Column(g, 1);
    assert "A" !in col;
    assert Letters(4)[0] == "A";
    assert multiset(Letters(4))["A"] > 0;
    assert !IsPermutationOfLetters(col, 4);
  }

  /** The example of `extensions`: the first empty cell is (2, 2) and only
      "D" fits there. */
  lemma PartialFourFirstEmpty()
    ensures WellFormed(PartialFour) && FirstEmpty(PartialFour) == Some((2, 2))
  {
    var g := PartialFour;
    assert "" !in g[0] && "" !in g[1];
    assert FirstEmptyFrom(g, 2) == Some((2, 2));
    assert FirstEmptyFrom(g, 1) == FirstEmptyFrom(g, 2);
  }

  lemma PartialFourCandidates()
    ensures WellFormed(PartialFour) && Candidates(PartialFour, 2, 2) == ["D"]
  {
    var g := PartialFour;
    var ls := ["A", "B", "C", "D"];
    assert Letters(4) == ls;
    assert BlockStart(2, 2) == 2;
    assert !Allowed(g, 2, 2, "A") && !Allowed(g, 2, 2, "B");
    assert g[0][2] == "C";
    assert !Allowed(g, 2, 2, "C");
    assert "D" !in g[2];
    assert !ColumnHas(g, 2, "D");
    assert !BlockHas(g, 2, 2, "D");
    assert KeepAllowed(ls[3..], g, 2, 2) == ["D"];
    assert KeepAllowed(ls[2..], g, 2, 2) == ["D"];
    assert KeepAllowed(ls[1..], g, 2, 2) == ["D"];
  }

  /** The example of `extensions`: the first empty cell is (2, 2) and only
      "D" fits there. */
  lemma PartialFourExtensions()
    ensures WellFormed(PartialFour)
    ensures Extensions(PartialFour) == [PartialFour[2 := ["B", "A", "D", ""]]]
  {
    PartialFourFirstEmpty();
    PartialFourCandidates();
    var g := PartialFour;
    assert g[2][2 := "D"] == ["B", "A", "D", ""];
    assert Extensions(g) == [Extend(g, "D", 2, 2)];
  }
}
