/** The exhaustive search of PuzzleGames/solver.py: `solve` returns the
    first solution it meets, `solve_complete` all of them. Both look at the
    children of an unsolved puzzle first and then recurse into the
    grandchildren, in `extensions` order. Termination rests on the rank of
    Puzzles, which every extension lowers. */
module Solver {
  import opened Common
  import opened Puzzles

  /** All puzzles of ps are valid and of rank below bound. */
  predicate Below(words: seq<string>, ps: seq<Puzzle>, bound: nat)
  {
    forall q :: q in ps ==> Valid(q) && Rank(words, q) < bound
  }

  /** The first solved puzzle of ps. */
  function FirstSolved(words: seq<string>, ps: seq<Puzzle>): (r: Option<Puzzle>)
    requires forall q :: q in ps ==> Valid(q)
    ensures r.None? <==> forall q :: q in ps ==> !IsSolved(words, q)
    ensures r.Some? ==> r.value in ps && IsSolved(words, r.value)
  {
    if ps == [] then None
    else
      var front := ps[..|ps| - 1];
      var last := ps[|ps| - 1];
      assert forall q :: q in ps <==> q in front || q == last;
      match FirstSolved(words, front)
      case Some(s) => Some(s)
      case None => if IsSolved(words, last) then Some(last) else None
  }

  /** The solved puzzles of ps, in order. */
  function SolvedAmong(words: seq<string>, ps: seq<Puzzle>): (r: seq<Puzzle>)
    requires forall q :: q in ps ==> Valid(q)
    ensures forall q :: q in r <==> q in ps && IsSolved(words, q)
  {
    if ps == [] then []
    else
      var front := ps[..|ps| - 1];
      var last := ps[|ps| - 1];
      assert forall q :: q in ps <==> q in front || q == last;
      SolvedAmong(words, front) + (if IsSolved(words, last) then [last] else [])
  }

  /** `choices`: the extensions of the puzzles of ps, one after the other. */
  function Grandchildren(words: seq<string>, ps: seq<Puzzle>, bound: nat): (r: seq<Puzzle>)
    requires Below(words, ps, bound)
    ensures Below(words, r, bound)
  {
    if ps == [] then []
    else
      var front := ps[..|ps| - 1];
      assert forall q :: q in front ==> q in ps;
      Grandchildren(words, front, bound) + Extensions(words, ps[|ps| - 1])
  }

  /** `solve`. */
  function Solve(words: seq<string>, p: Puzzle): Option<Puzzle>
    requires Valid(p)
    decreases Rank(words, p), 1, 0
  {
    if IsSolved(words, p) then Some(p)
    else
      var lst := Extensions(words, p);
      if lst == [] then None
      else if FirstSolved(words, lst).Some? then FirstSolved(words, lst)
      else
        var choices := Grandchildren(words, lst, Rank(words, p));
        if choices == [] then None else SolveFirst(words, choices, Rank(words, p))
  }

  /** The loop over `choices` in `solve`: the first result that is not None. */
  function SolveFirst(words: seq<string>, cs: seq<Puzzle>, bound: nat): Option<Puzzle>
    requires Below(words, cs, bound)
    decreases bound, 0, |cs|
  {
    if cs == [] then None
    else
      assert cs[0] in cs;
      match Solve(words, cs[0])
      case Some(s) => Some(s)
      case None => SolveFirst(words, cs[1..], bound)
  }

  /** `solve_complete`. Unlike `solve`, it also explores the extensions of a
      solved child. */
  function SolveComplete(words: seq<string>, p: Puzzle): seq<Puzzle>
    requires Valid(p)
    decreases Rank(words, p), 1, 0
  {
    if IsSolved(words, p) then [p]
    else
      var lst := Extensions(words, p);
      if lst == [] then []
      else
        var choices := Grandchildren(words, lst, Rank(words, p));
        SolvedAmong(words, lst) + (if choices == [] then [] else SolveAll(words, choices, Rank(words, p)))
  }

  /** The loop over `choices` in `solve_complete`: all results, in order. */
  function SolveAll(words: seq<string>, cs: seq<Puzzle>, bound: nat): seq<Puzzle>
    requires Below(words, cs, bound)
    decreases bound, 0, |cs|
  {
    if cs == [] then []
    else
      assert cs[0] in cs;
      SolveComplete(words, cs[0]) + SolveAll(words, cs[1..], bound)
  }

  // ---------------------------------------------------------------------
  // What the two searches promise
  // ---------------------------------------------------------------------

  /** A solved puzzle is its own answer. */
  lemma SolvedIsAnswer(words: seq<string>, p: Puzzle)
    requires Valid(p) && IsSolved(words, p)
    ensures Solve(words, p) == Some(p) && SolveComplete(words, p) == [p]
  {
  }

  /** An unsolved puzzle without extensions has no answer. */
  lemma NoExtensionsNoAnswer(words: seq<string>, p: Puzzle)
    requires Valid(p) && !IsSolved(words, p) && Extensions(words, p) == []
    ensures Solve(words, p) == None && SolveComplete(words, p) == []
  {
  }

  /** If a child is solved, `solve` answers with the first solved child. */
  lemma SolvedChildFirst(words: seq<string>, p: Puzzle, k: nat)
    requires Valid(p) && !IsSolved(words, p)
    requires k < |Extensions(words, p)| && IsSolved(words, Extensions(words, p)[k])
    requires forall j :: 0 <= j < k ==> !IsSolved(words, Extensions(words, p)[j])
    ensures Solve(words, p) == Some(Extensions(words, p)[k])
  {
    FirstSolvedAt(words, Extensions(words, p), k);
  }

  /** FirstSolved finds the solved puzzle that no solved puzzle precedes. */
  lemma {:induction false} FirstSolvedAt(words: seq<string>, ps: seq<Puzzle>, k: nat)
    requires forall q :: q in ps ==> Valid(q)
    requires k < |ps| && IsSolved(words, ps[k])
    requires forall j :: 0 <= j < k ==> !IsSolved(words, ps[j])
    ensures FirstSolved(words, ps) == Some(ps[k])
  {
    var front := ps[..|ps| - 1];
    assert forall q :: q in front ==> q in ps;
    if k < |ps| - 1 {
      FirstSolvedAt(words, front, k);
    } else {
      assert forall q :: q in front ==> !IsSolved(words, q);
    }
  }

  /** Every answer of `solve` is solved. */
  lemma {:induction false} SolveIsSound(words: seq<string>, p: Puzzle)
    requires Valid(p) && Solve(words, p).Some?
    ensures Valid(Solve(words, p).value) && IsSolved(words, Solve(words, p).value)
    decreases Rank(words, p), 1, 0
  {
    if !IsSolved(words, p) {
      var lst := Extensions(words, p);
      if FirstSolved(words, lst).None? {
        SolveFirstIsSound(words, Grandchildren(words, lst, Rank(words, p)), Rank(words, p));
      }
    }
  }

  lemma {:induction false} SolveFirstIsSound(words: seq<string>, cs: seq<Puzzle>, bound: nat)
    requires Below(words, cs, bound) && SolveFirst(words, cs, bound).Some?
    ensures Valid(SolveFirst(words, cs, bound).value) && IsSolved(words, SolveFirst(words, cs, bound).value)
    decreases bound, 0, |cs|
  {
    assert cs[0] in cs;
    if Solve(words, cs[0]).Some? {
      SolveIsSound(words, cs[0]);
    } else {
      SolveFirstIsSound(words, cs[1..], bound);
    }
  }

  /** Every puzzle `solve_complete` returns is solved. */
  lemma {:induction false} SolveCompleteIsSound(words: seq<string>, p: Puzzle)
    requires Valid(p)
    ensures forall s :: s in SolveComplete(words, p) ==> Valid(s) && IsSolved(words, s)
    decreases Rank(words, p), 1, 0
  {
    if !IsSolved(words, p) {
      var lst := Extensions(words, p);
      if lst != [] {
        SolveAllIsSound(words, Grandchildren(words, lst, Rank(words, p)), Rank(words, p));
      }
    }
  }

  lemma {:induction false} SolveAllIsSound(words: seq<string>, cs: seq<Puzzle>, bound: nat)
    requires Below(words, cs, bound)
    ensures forall s :: s in SolveAll(words, cs, bound) ==> Valid(s) && IsSolved(words, s)
    decreases bound, 0, |cs|
  {
    if cs != [] {
      assert cs[0] in cs;
      SolveCompleteIsSound(words, cs[0]);
      SolveAllIsSound(words, cs[1..], bound);
    }
  }

  /** The first solved puzzle of a list is the head of its solved
      puzzles. */
  lemma {:induction false} FirstSolvedIsHead(words: seq<string>, ps: seq<Puzzle>)
    requires forall q :: q in ps ==> Valid(q)
    ensures FirstSolved(words, ps).None? <==> SolvedAmong(words, ps) == []
    ensures FirstSolved(words, ps).Some? ==> FirstSolved(words, ps).value == SolvedAmong(words, ps)[0]
  {
    if ps != [] {
      var front := ps[..|ps| - 1];
      assert forall q :: q in front ==> q in ps;
      FirstSolvedIsHead(words, front);
    }
  }

  /** `solve` finds no answer exactly when `solve_complete` finds none, and
      otherwise answers with the first puzzle `solve_complete` lists. */
  lemma {:induction false} SolveIsFirstOfComplete(words: seq<string>, p: Puzzle)
    requires Valid(p)
    ensures Solve(words, p).None? <==> SolveComplete(words, p) == []
    ensures Solve(words, p).Some? ==> Solve(words, p).value == SolveComplete(words, p)[0]
    decreases Rank(words, p), 1, 0
  {
    if !IsSolved(words, p) {
      var lst := Extensions(words, p);
      if lst != [] {
        SolveOfUnsolved(words, p);
        SolveCompleteOfUnsolved(words, p);
        FirstSolvedIsHead(words, lst);
        var choices := Grandchildren(words, lst, Rank(words, p));
        if choices != [] {
          SolveFirstIsFirstOfAll(words, choices, Rank(words, p));
        }
      }
    }
  }

  lemma {:induction false} SolveFirstIsFirstOfAll(words: seq<string>, cs: seq<Puzzle>, bound: nat)
    requires Below(words, cs, bound)
    ensures SolveFirst(words, cs, bound).None? <==> SolveAll(words, cs, bound) == []
    ensures SolveFirst(words, cs, bound).Some? ==>
              SolveFirst(words, cs, bound).value == SolveAll(words, cs, bound)[0]
    decreases bound, 0, |cs|
  {
    if cs != [] {
      assert cs[0] in cs;
      SolveIsFirstOfComplete(words, cs[0]);
      SolveFirstIsFirstOfAll(words, cs[1..], bound);
    }
  }

  // ---------------------------------------------------------------------
  // Completeness: the searches miss no solution
  // ---------------------------------------------------------------------

  /** A sequence of moves: valid puzzles, each after the first one of the
      extensions of the one before. */
  predicate IsPath(words: seq<string>, path: seq<Puzzle>)
  {
    && (forall i :: 0 <= i < |path| ==> Valid(path[i]))
    && (forall i :: 0 <= i < |path| - 1 ==> path[i + 1] in Extensions(words, path[i]))
  }

  /** A sequence of moves that ends in q. */
  predicate PathTo(words: seq<string>, path: seq<Puzzle>, q: Puzzle)
  {
    |path| > 0 && IsPath(words, path) && path[|path| - 1] == q
  }

  /** A sequence of moves on which every puzzle before the last is
      unsolved. */
  predicate IsUnsolvedPath(words: seq<string>, path: seq<Puzzle>)
  {
    IsPath(words, path) && forall i :: 0 <= i < |path| - 1 ==> !IsSolved(words, path[i])
  }

  lemma PathDrop(words: seq<string>, path: seq<Puzzle>, n: nat)
    requires IsPath(words, path) && n < |path|
    ensures IsPath(words, path[n..])
    ensures IsUnsolvedPath(words, path) ==> IsUnsolvedPath(words, path[n..])
  {
    assert forall i :: 0 <= i < |path| - n ==> path[n..][i] == path[n + i];
  }

  /** The first two moves of a path of at least three puzzles, and the path
      after them. */
  lemma PathTail(words: seq<string>, path: seq<Puzzle>)
    requires |path| > 2 && IsPath(words, path)
    ensures IsPath(words, path[2..]) && path[2..][|path| - 3] == path[|path| - 1]
    ensures IsUnsolvedPath(words, path) ==> IsUnsolvedPath(words, path[2..])
    ensures path[1] in Extensions(words, path[0]) && path[2] in Extensions(words, path[1])
  {
    PathDrop(words, path, 2);
  }

  /** A move in front of a path. */
  lemma PathCons(words: seq<string>, p: Puzzle, path: seq<Puzzle>)
    requires Valid(p) && |path| > 0 && IsPath(words, path) && path[0] in Extensions(words, p)
    ensures IsPath(words, [p] + path)
    ensures ([p] + path)[0] == p && ([p] + path)[|path|] == path[|path| - 1]
  {
    var r := [p] + path;
    forall i | 0 <= i < |r| ensures Valid(r[i]) {
      if i > 0 { assert r[i] == path[i - 1]; }
    }
    forall i | 0 <= i < |r| - 1 ensures r[i + 1] in Extensions(words, r[i]) {
      if i > 0 { assert r[i] == path[i - 1] && r[i + 1] == path[i]; }
    }
  }

  /** A path that starts at a puzzle `solve` finds no solved child of, and
      ends in a solved puzzle, has at least its two first moves. */
  lemma PathLong(words: seq<string>, path: seq<Puzzle>)
    requires |path| > 0 && IsPath(words, path) && IsSolved(words, path[|path| - 1])
    requires !IsSolved(words, path[0]) && FirstSolved(words, Extensions(words, path[0])).None?
    ensures |path| > 2
  {
    assert |path| > 1;
    assert path[1] in Extensions(words, path[0]);
  }

  /** Every extension of a puzzle of ps is one of the `choices`. */
  lemma {:induction false} GrandchildrenHas(words: seq<string>, ps: seq<Puzzle>, bound: nat, c: Puzzle, g: Puzzle)
    requires Below(words, ps, bound) && c in ps && Valid(c) && g in Extensions(words, c)
    ensures g in Grandchildren(words, ps, bound)
    decreases |ps|
  {
    var front := ps[..|ps| - 1];
    assert forall q :: q in ps <==> q in front || q == ps[|ps| - 1];
    if c != ps[|ps| - 1] {
      GrandchildrenHas(words, front, bound, c, g);
    }
  }

  /** Every one of the `choices` is an extension of a puzzle of ps. */
  lemma {:induction false} GrandchildrenFrom(words: seq<string>, ps: seq<Puzzle>, bound: nat, g: Puzzle)
    requires Below(words, ps, bound) && g in Grandchildren(words, ps, bound)
    ensures exists c :: c in ps && Valid(c) && g in Extensions(words, c)
    decreases |ps|
  {
    var front := ps[..|ps| - 1];
    assert forall q :: q in front ==> q in ps;
    assert ps[|ps| - 1] in ps;
    if g !in Extensions(words, ps[|ps| - 1]) {
      GrandchildrenFrom(words, front, bound, g);
    }
  }

  /** The loop over `choices` finds an answer when some choice has one. */
  lemma {:induction false} SolveFirstFinds(words: seq<string>, cs: seq<Puzzle>, bound: nat, g: Puzzle)
    requires Below(words, cs, bound) && g in cs && Valid(g) && Solve(words, g).Some?
    ensures SolveFirst(words, cs, bound).Some?
    decreases |cs|
  {
    assert cs[0] in cs;
    if Solve(words, cs[0]).None? {
      assert g in cs[1..];
      SolveFirstFinds(words, cs[1..], bound, g);
    }
  }

  /** The loop over `choices` collects every answer of every choice. */
  lemma {:induction false} SolveAllHas(words: seq<string>, cs: seq<Puzzle>, bound: nat, g: Puzzle, q: Puzzle)
    requires Below(words, cs, bound) && g in cs && Valid(g) && q in SolveComplete(words, g)
    ensures q in SolveAll(words, cs, bound)
    decreases |cs|
  {
    assert cs[0] in cs;
    if g != cs[0] {
      assert g in cs[1..];
      SolveAllHas(words, cs[1..], bound, g, q);
    }
  }

  /** A grandchild with an answer gives `solve` an answer. */
  lemma GrandchildSolves(words: seq<string>, p: Puzzle, c: Puzzle, g: Puzzle)
    requires Valid(p) && !IsSolved(words, p) && FirstSolved(words, Extensions(words, p)).None?
    requires c in Extensions(words, p) && g in Extensions(words, c) && Solve(words, g).Some?
    ensures Solve(words, p).Some?
  {
    var lst := Extensions(words, p);
    GrandchildrenHas(words, lst, Rank(words, p), c, g);
    SolveFirstFinds(words, Grandchildren(words, lst, Rank(words, p)), Rank(words, p), g);
  }

  /** What `solve_complete` returns for a grandchild it returns for p. */
  lemma GrandchildCollects(words: seq<string>, p: Puzzle, c: Puzzle, g: Puzzle, q: Puzzle)
    requires Valid(p) && !IsSolved(words, p)
    requires c in Extensions(words, p) && g in Extensions(words, c) && q in SolveComplete(words, g)
    ensures q in SolveComplete(words, p)
  {
    var lst := Extensions(words, p);
    GrandchildrenHas(words, lst, Rank(words, p), c, g);
    SolveAllHas(words, Grandchildren(words, lst, Rank(words, p)), Rank(words, p), g, q);
  }

  /** If a path leads from p to a solved puzzle, `solve` answers. */
  lemma {:induction false} SolveFindsPath(words: seq<string>, path: seq<Puzzle>)
    requires |path| > 0 && IsPath(words, path) && IsSolved(words, path[|path| - 1])
    ensures Solve(words, path[0]).Some?
    decreases |path|
  {
    if !IsSolved(words, path[0]) && FirstSolved(words, Extensions(words, path[0])).None? {
      PathLong(words, path);
      PathTail(words, path);
      SolveFindsPath(words, path[2..]);
      GrandchildSolves(words, path[0], path[1], path[2]);
    }
  }

  /** `solve` returns None only when no sequence of moves leads from the
      puzzle to a solved one. */
  lemma SolveIsComplete(words: seq<string>, p: Puzzle)
    requires Valid(p) && Solve(words, p).None?
    ensures forall path :: IsPath(words, path) && |path| > 0 && path[0] == p ==> !IsSolved(words, path[|path| - 1])
  {
    forall path | IsPath(words, path) && |path| > 0 && path[0] == p
      ensures !IsSolved(words, path[|path| - 1])
    {
      if IsSolved(words, path[|path| - 1]) {
        SolveFindsPath(words, path);
      }
    }
  }

  /** `solve_complete` returns the end of every path from p to a solved
      puzzle through unsolved ones. */
  lemma {:induction false} SolveCompleteIsComplete(words: seq<string>, path: seq<Puzzle>)
    requires |path| > 0 && IsUnsolvedPath(words, path) && IsSolved(words, path[|path| - 1])
    ensures path[|path| - 1] in SolveComplete(words, path[0])
    decreases |path|
  {
    if |path| == 2 {
      assert path[1] in Extensions(words, path[0]);
    } else if |path| > 2 {
      PathTail(words, path);
      SolveCompleteIsComplete(words, path[2..]);
      GrandchildCollects(words, path[0], path[1], path[2], path[|path| - 1]);
    }
  }

  /** The end of a path from a grandchild of p is the end of a path
      from p. */
  lemma PathThrough(words: seq<string>, p: Puzzle, c: Puzzle, path: seq<Puzzle>)
    requires Valid(p) && c in Extensions(words, p) && |path| > 0 && IsPath(words, path)
    requires path[0] in Extensions(words, c)
    ensures exists w :: PathTo(words, w, path[|path| - 1]) && w[0] == p
  {
    PathCons(words, c, path);
    PathCons(words, p, [c] + path);
    var w := [p] + ([c] + path);
    assert PathTo(words, w, path[|path| - 1]) && w[0] == p;
  }

  /** A solved child of p is the end of a path from p. */
  lemma ChildPath(words: seq<string>, p: Puzzle, q: Puzzle)
    requires Valid(p) && q in Extensions(words, p)
    ensures exists w :: PathTo(words, w, q) && w[0] == p
  {
    assert PathTo(words, [p, q], q);
  }

  /** Every puzzle `solve_complete` returns is the end of a path from p. */
  lemma {:induction false} SolveCompleteReaches(words: seq<string>, p: Puzzle, q: Puzzle)
    requires Valid(p) && q in SolveComplete(words, p)
    ensures exists path :: PathTo(words, path, q) && path[0] == p
    decreases Rank(words, p), 2, 0
  {
    if IsSolved(words, p) {
      assert PathTo(words, [p], p);
    } else {
      var lst := Extensions(words, p);
      if q in SolvedAmong(words, lst) {
        ChildPath(words, p, q);
      } else {
        GrandchildReaches(words, p, q);
      }
    }
  }

  /** The answers `solve_complete` finds below the grandchildren of p are
      ends of paths from p. */
  lemma {:induction false} GrandchildReaches(words: seq<string>, p: Puzzle, q: Puzzle)
    requires Valid(p) && !IsSolved(words, p) && Extensions(words, p) != []
    requires q in SolveAll(words, Grandchildren(words, Extensions(words, p), Rank(words, p)), Rank(words, p))
    ensures exists path :: PathTo(words, path, q) && path[0] == p
    decreases Rank(words, p), 1, 0
  {
    var lst := Extensions(words, p);
    var choices := Grandchildren(words, lst, Rank(words, p));
    SolveAllReaches(words, choices, Rank(words, p), q);
    var path :| PathTo(words, path, q) && path[0] in choices;
    GrandchildPath(words, p, path, q);
  }

  /** A path from one of the `choices` of p extends to a path from p. */
  lemma GrandchildPath(words: seq<string>, p: Puzzle, path: seq<Puzzle>, q: Puzzle)
    requires Valid(p) && PathTo(words, path, q)
    requires path[0] in Grandchildren(words, Extensions(words, p), Rank(words, p))
    ensures exists w :: PathTo(words, w, q) && w[0] == p
  {
    var lst := Extensions(words, p);
    GrandchildrenFrom(words, lst, Rank(words, p), path[0]);
    var c :| c in lst && Valid(c) && path[0] in Extensions(words, c);
    PathThrough(words, p, c, path);
  }

  lemma {:induction false} SolveAllReaches(words: seq<string>, cs: seq<Puzzle>, bound: nat, q: Puzzle)
    requires Below(words, cs, bound) && q in SolveAll(words, cs, bound)
    ensures exists path :: PathTo(words, path, q) && path[0] in cs
    decreases bound, 0, |cs|
  {
    assert cs[0] in cs;
    if q in SolveComplete(words, cs[0]) {
      SolveCompleteReaches(words, cs[0], q);
    } else {
      SolveAllReaches(words, cs[1..], bound, q);
      var path :| PathTo(words, path, q) && path[0] in cs[1..];
      assert path[0] in cs;
    }
  }

  /** The answer of `solve` is the end of a path from p. */
  lemma SolveReaches(words: seq<string>, p: Puzzle)
    requires Valid(p) && Solve(words, p).Some?
    ensures exists path :: PathTo(words, path, Solve(words, p).value) && path[0] == p
  {
    SolveIsFirstOfComplete(words, p);
    SolveCompleteReaches(words, p, Solve(words, p).value);
  }

  // ---------------------------------------------------------------------
  // The two searches as the loops of the source
  // ---------------------------------------------------------------------

  /** `solve`: the loop over the children, then the loop over `choices`. */
  method SolveLoop(words: seq<string>, p: Puzzle) returns (answer: Option<Puzzle>)
    requires Valid(p)
    ensures answer == Solve(words, p)
    decreases Rank(words, p), 1, 0
  {
    if IsSolved(words, p) {
      return Some(p);
    }
    var lst := Extensions(words, p);
    if |lst| == 0 {
      return None;
    }
    var bound := Rank(words, p);
    var first, choices := ScanChildren(words, lst, bound);
    if first.Some? {
      return first;
    }
    if |choices| == 0 {
      return None;
    }
    answer := SolveChoices(words, choices, bound);
  }

  /** The loop of `solve` over the children: it stops at the first solved
      child and otherwise collects `choices`. */
  method ScanChildren(words: seq<string>, lst: seq<Puzzle>, ghost bound: nat)
    returns (first: Option<Puzzle>, choices: seq<Puzzle>)
    requires Below(words, lst, bound)
    ensures first == FirstSolved(words, lst)
    ensures first.None? ==> choices == Grandchildren(words, lst, bound)
  {
    choices := [];
    var i := 0;
    while i < |lst|
      invariant 0 <= i <= |lst|
      invariant FirstSolved(words, lst[..i]).None?
      invariant choices == Grandchildren(words, lst[..i], bound)
    {
      PrefixStep(words, lst, i, bound);
      if IsSolved(words, lst[i]) {
        FirstSolvedOfPrefix(words, lst, i + 1);
        return Some(lst[i]), choices;
      }
      choices := choices + Extensions(words, lst[i]);
      i := i + 1;
    }
    assert lst[..i] == lst;
    first := None;
  }

  /** What one more child adds to the first solved child, to the solved
      children and to `choices`. */
  lemma PrefixStep(words: seq<string>, ps: seq<Puzzle>, i: nat, bound: nat)
    requires Below(words, ps, bound) && i < |ps|
    ensures Below(words, ps[..i], bound) && Below(words, ps[..i + 1], bound)
    ensures FirstSolved(words, ps[..i]).None? ==>
              FirstSolved(words, ps[..i + 1]) == if IsSolved(words, ps[i]) then Some(ps[i]) else None
    ensures SolvedAmong(words, ps[..i + 1]) ==
              SolvedAmong(words, ps[..i]) + if IsSolved(words, ps[i]) then [ps[i]] else []
    ensures Grandchildren(words, ps[..i + 1], bound) == Grandchildren(words, ps[..i], bound) + Extensions(words, ps[i])
  {
    assert ps[..i + 1][..i] == ps[..i];
    assert forall q :: q in ps[..i + 1] ==> q in ps;
  }

  /** Once a prefix of ps holds a solved puzzle, the first solved puzzle of
      ps is that of the prefix. */
  lemma {:induction false} FirstSolvedOfPrefix(words: seq<string>, ps: seq<Puzzle>, n: nat)
    requires forall q :: q in ps ==> Valid(q)
    requires n <= |ps| && FirstSolved(words, ps[..n]).Some?
    ensures FirstSolved(words, ps) == FirstSolved(words, ps[..n])
    decreases |ps| - n
  {
    if n < |ps| {
      assert ps[..n + 1][..n] == ps[..n];
      FirstSolvedOfPrefix(words, ps, n + 1);
    } else {
      assert ps[..n] == ps;
    }
  }

  /** The loop of `solve` over `choices`: the first answer found. */
  method SolveChoices(words: seq<string>, cs: seq<Puzzle>, bound: nat) returns (answer: Option<Puzzle>)
    requires Below(words, cs, bound)
    ensures answer == SolveFirst(words, cs, bound)
    decreases bound, 0, |cs|
  {
    var k := 0;
    while k < |cs|
      invariant 0 <= k <= |cs|
      invariant SolveFirst(words, cs[k..], bound) == SolveFirst(words, cs, bound)
    {
      assert cs[k] in cs;
      var result := SolveLoop(words, cs[k]);
      assert cs[k..][1..] == cs[k + 1..];
      if result.Some? {
        return result;
      }
      k := k + 1;
    }
    return None;
  }

  /** `solve_complete`: the loop over the children, then the loop over
      `choices`, both adding to `final`. */
  method SolveCompleteLoop(words: seq<string>, p: Puzzle) returns (final: seq<Puzzle>)
    requires Valid(p)
    ensures final == SolveComplete(words, p)
    decreases Rank(words, p), 1, 0
  {
    final := [];
    if IsSolved(words, p) {
      assert final + [p] == [p];
      final := final + [p];
      return final;
    }
    var lst := Extensions(words, p);
    if |lst| == 0 {
      return final;
    }
    var bound := Rank(words, p);
    SolveCompleteOfUnsolved(words, p);
    var choices;
    final, choices := CollectChildren(words, lst, bound);
    if |choices| == 0 {
      assert final + [] == final;
      return final;
    }
    final := SolveChoicesComplete(words, choices, bound, final);
  }

  lemma SolveOfUnsolved(words: seq<string>, p: Puzzle)
    requires Valid(p) && !IsSolved(words, p) && Extensions(words, p) != []
    ensures var lst := Extensions(words, p);
      var choices := Grandchildren(words, lst, Rank(words, p));
      Solve(words, p) ==
        if FirstSolved(words, lst).Some? then FirstSolved(words, lst)
        else if choices == [] then None
        else SolveFirst(words, choices, Rank(words, p))
  {
  }

  lemma SolveCompleteOfUnsolved(words: seq<string>, p: Puzzle)
    requires Valid(p) && !IsSolved(words, p) && Extensions(words, p) != []
    ensures var lst := Extensions(words, p);
      var choices := Grandchildren(words, lst, Rank(words, p));
      SolveComplete(words, p) ==
        SolvedAmong(words, lst) + (if choices == [] then [] else SolveAll(words, choices, Rank(words, p)))
  {
  }

  /** The loop of `solve_complete` over the children: the solved ones go to
      `final`, the extensions of every one to `choices`. */
  method CollectChildren(words: seq<string>, lst: seq<Puzzle>, ghost bound: nat)
    returns (final: seq<Puzzle>, choices: seq<Puzzle>)
    requires Below(words, lst, bound)
    ensures final == SolvedAmong(words, lst)
    ensures choices == Grandchildren(words, lst, bound)
  {
    final, choices := [], [];
    var i := 0;
    while i < |lst|
      invariant 0 <= i <= |lst|
      invariant final == SolvedAmong(words, lst[..i])
      invariant choices == Grandchildren(words, lst[..i], bound)
    {
      PrefixStep(words, lst, i, bound);
      if IsSolved(words, lst[i]) {
        final := final + [lst[i]];
      }
      choices := choices + Extensions(words, lst[i]);
      i := i + 1;
    }
    assert lst[..i] == lst;
  }

  /** The loop of `solve_complete` over `choices`: it extends `final` with
      the answers of every choice. */
  method SolveChoicesComplete(words: seq<string>, cs: seq<Puzzle>, bound: nat, start: seq<Puzzle>)
    returns (final: seq<Puzzle>)
    requires Below(words, cs, bound)
    ensures final == start + SolveAll(words, cs, bound)
    decreases bound, 0, |cs|
  {
    final := start;
    var k := 0;
    while k < |cs|
      invariant 0 <= k <= |cs|
      invariant final + SolveAll(words, cs[k..], bound) == start + SolveAll(words, cs, bound)
    {
      assert cs[k] in cs;
      var answer := SolveCompleteLoop(words, cs[k]);
      assert cs[k..][1..] == cs[k + 1..];
      final := final + answer;
      k := k + 1;
    }
    assert final + [] == final;
  }
}
