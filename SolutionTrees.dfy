/** The hint search of PuzzleGames/solver.py: the depth-bounded
    `SolutionTree` that `build_solution_tree` grows below a puzzle, the
    `items_at_depth` query, and the choice of `hint_by_depth_helper` and
    `hint_by_depth`.

    A `Tree` is the value a `SolutionTree` object stands for: its root
    puzzle and its list of subtrees. The functions on trees say what the
    source computes; the class `SolutionTree` and the methods after it do
    it in place, as the source does, and are proved to agree with those
    functions. The root sits at depth 1. */
module SolutionTrees {
  import opened Common
  import opened Puzzles

  datatype Tree = Node(root: Puzzle, children: seq<Tree>)

  /** The root of every node is a valid puzzle. */
  predicate TreeValid(t: Tree)
  {
    Valid(t.root) && forall i :: 0 <= i < |t.children| ==> TreeValid(t.children[i])
  }

  predicate AllValid(ps: seq<Puzzle>)
  {
    forall i :: 0 <= i < |ps| ==> Valid(ps[i])
  }

  /** `puzzle.extensions()`. Every puzzle a tree holds is valid (TreeValid
      is kept by every step below), so the guard only makes the function
      total. */
  function Next(words: seq<string>, p: Puzzle): (cs: seq<Puzzle>)
    ensures AllValid(cs)
    ensures Valid(p) ==> cs == Extensions(words, p)
  {
    if Valid(p) then Extensions(words, p) else []
  }

  /** `puzzle.is_solved()` on a puzzle of a tree. */
  predicate Solved(words: seq<string>, p: Puzzle)
  {
    Valid(p) && IsSolved(words, p)
  }

  function Roots(ts: seq<Tree>): (ps: seq<Puzzle>)
    ensures |ps| == |ts| && forall i :: 0 <= i < |ts| ==> ps[i] == ts[i].root
  {
    if ts == [] then [] else [ts[0].root] + Roots(ts[1..])
  }

  // ---------------------------------------------------------------------
  // items_at_depth
  // ---------------------------------------------------------------------

  /** `items_at_depth(d)`: the subtrees at depth d, left to right. At depth
      1 the source lists the root puzzle itself; here it is the whole tree,
      whose root is that puzzle. */
  function ItemsAt(t: Tree, d: nat): seq<Tree>
    requires d >= 1
    decreases d, 1
  {
    if d == 1 then [t]
    else if d == 2 then t.children
    else ItemsAtAll(t.children, d)
  }

  /** `result.extend(extension.items_at_depth(d - 1))` over the subtrees ts. */
  function ItemsAtAll(ts: seq<Tree>, d: nat): seq<Tree>
    requires d >= 2
    decreases d, 0, |ts|
  {
    if ts == [] then [] else ItemsAt(ts[0], d - 1) + ItemsAtAll(ts[1..], d)
  }

  // ---------------------------------------------------------------------
  // build_solution_tree
  // ---------------------------------------------------------------------

  /** One `SolutionTree(element)` per puzzle. */
  function Leaves(ps: seq<Puzzle>): seq<Tree>
  {
    seq(|ps|, i requires 0 <= i < |ps| => Node(ps[i], []))
  }

  /** The loop that adds one leaf per extension of the root: the first step
      of `build_solution_tree`, and the loop over the extensions of each
      child in its second step. */
  function Grow(next: Puzzle -> seq<Puzzle>, t: Tree): Tree
  {
    Node(t.root, t.children + Leaves(next(t.root)))
  }

  /** `build_solution_tree(root, n)`: grow the root; if n - 1 >= 1 grow each
      subtree; if n - 2 >= 1 build every grandchild with n - 2. */
  function Build(next: Puzzle -> seq<Puzzle>, t: Tree, n: int): Tree
    decreases if n < 0 then 0 else n, 2
  {
    var t1 := Grow(next, t);
    if n - 1 < 1 then t1
    else
      var t2 := GrowChildren(next, t1);
      if n - 2 < 1 then t2 else BuildGrandchildren(next, t2, n)
  }

  /** `for obj in root.get_extensions(): ...`: every subtree grown. */
  function GrowChildren(next: Puzzle -> seq<Puzzle>, t: Tree): Tree
  {
    Node(t.root, seq(|t.children|, i requires 0 <= i < |t.children| => Grow(next, t.children[i])))
  }

  /** `for choice in root.get_extensions(): for nest_obj in
      choice.get_extensions(): build_solution_tree(nest_obj, n - 2)`. */
  function BuildGrandchildren(next: Puzzle -> seq<Puzzle>, t: Tree, n: int): Tree
    decreases if n < 0 then 0 else n, 1
  {
    Node(t.root, seq(|t.children|, i requires 0 <= i < |t.children| =>
      BuildChildren(next, t.children[i], n)))
  }

  /** The inner loop: `build_solution_tree(nest_obj, n - 2)` on every subtree
      of one choice. */
  function BuildChildren(next: Puzzle -> seq<Puzzle>, c: Tree, n: int): Tree
    decreases if n < 0 then 0 else n, 0
  {
    Node(c.root, seq(|c.children|, j requires 0 <= j < |c.children| =>
      if n - 2 < 0 then c.children[j] else Build(next, c.children[j], n - 2)))
  }

  // ---------------------------------------------------------------------
  // The reference: the puzzles reachable in k moves
  // ---------------------------------------------------------------------

  /** The tree that gives p, and every node down to k moves below it,
      exactly the children `extensions()` returns, in order; the nodes k
      moves below p have no children. */
  function Full(next: Puzzle -> seq<Puzzle>, p: Puzzle, k: nat): Tree
    decreases k
  {
    if k == 0 then Node(p, [])
    else
      var cs := next(p);
      Node(p, seq(|cs|, i requires 0 <= i < |cs| => Full(next, cs[i], k - 1)))
  }

  /** The puzzles reached from p by k successive extensions, in the order of
      the extension lists. */
  function Level(next: Puzzle -> seq<Puzzle>, p: Puzzle, k: nat): seq<Puzzle>
    decreases k, 1, 0
  {
    if k == 0 then [p] else LevelAll(next, next(p), k - 1)
  }

  function LevelAll(next: Puzzle -> seq<Puzzle>, ps: seq<Puzzle>, k: nat): seq<Puzzle>
    decreases k, 2, |ps|
  {
    if ps == [] then [] else Level(next, ps[0], k) + LevelAll(next, ps[1..], k)
  }

  lemma {:induction false} LevelAllZero(next: Puzzle -> seq<Puzzle>, ps: seq<Puzzle>)
    ensures LevelAll(next, ps, 0) == ps
  {
    if ps != [] {
      LevelAllZero(next, ps[1..]);
      assert ps == [ps[0]] + ps[1..];
    }
  }

  lemma GrowLeaf(next: Puzzle -> seq<Puzzle>, p: Puzzle)
    ensures Grow(next, Node(p, [])) == Full(next, p, 1)
  {
    assert Grow(next, Node(p, [])).children == Full(next, p, 1).children;
  }

  lemma GrowLeaves(next: Puzzle -> seq<Puzzle>, p: Puzzle)
    ensures GrowChildren(next, Full(next, p, 1)) == Full(next, p, 2)
  {
    var cs := next(p);
    var t := GrowChildren(next, Full(next, p, 1));
    forall i | 0 <= i < |cs|
      ensures t.children[i] == Full(next, cs[i], 1)
    {
      GrowLeaf(next, cs[i]);
    }
  }

  /** `build_solution_tree` on a fresh tree of one node builds the expansion
      n moves deep: every node at depth k <= n has exactly the children
      `extensions()` returns, in order, and the nodes at depth n + 1 have
      none. */
  lemma {:induction false} BuildFromLeaf(next: Puzzle -> seq<Puzzle>, p: Puzzle, n: int)
    requires n >= 1
    ensures Build(next, Node(p, []), n) == Full(next, p, n)
    decreases n, 2
  {
    GrowLeaf(next, p);
    if n >= 2 {
      GrowLeaves(next, p);
      if n >= 3 {
        BuildBelowLeaves(next, p, n);
      }
    }
  }

  lemma {:induction false} BuildBelowLeaves(next: Puzzle -> seq<Puzzle>, p: Puzzle, n: int)
    requires n >= 3
    ensures BuildGrandchildren(next, Full(next, p, 2), n) == Full(next, p, n)
    decreases n, 1
  {
    var cs := next(p);
    var t := BuildGrandchildren(next, Full(next, p, 2), n);
    forall i | 0 <= i < |cs|
      ensures t.children[i] == Full(next, cs[i], n - 1)
    {
      assert Full(next, p, 2).children[i] == Full(next, cs[i], 1);
      BuildChildrenOfLeaves(next, cs[i], n);
    }
  }

  lemma {:induction false} BuildChildrenOfLeaves(next: Puzzle -> seq<Puzzle>, c: Puzzle, n: int)
    requires n >= 3
    ensures BuildChildren(next, Full(next, c, 1), n) == Full(next, c, n - 1)
    decreases n, 0
  {
    var gs := next(c);
    var t := BuildChildren(next, Full(next, c, 1), n);
    forall j | 0 <= j < |gs|
      ensures t.children[j] == Full(next, gs[j], n - 2)
    {
      BuildFromLeaf(next, gs[j], n - 2);
    }
  }

  lemma RootsAppend(a: seq<Tree>, b: seq<Tree>)
    ensures Roots(a + b) == Roots(a) + Roots(b)
  {
    assert forall i :: 0 <= i < |a + b| ==> Roots(a + b)[i] == (Roots(a) + Roots(b))[i];
  }

  lemma {:induction false} RootsOfFull(next: Puzzle -> seq<Puzzle>, ps: seq<Puzzle>, ts: seq<Tree>, k: nat)
    requires |ts| == |ps| && forall i :: 0 <= i < |ps| ==> ts[i] == Full(next, ps[i], k)
    ensures Roots(ts) == ps
  {
    if ps != [] {
      assert ts[0] == Full(next, ps[0], k);
      RootsOfFull(next, ps[1..], ts[1..], k);
      assert ps == [ps[0]] + ps[1..];
    }
  }

  /** The subtrees at depth d of the expansion k moves deep hold, in order,
      the puzzles d - 1 moves below its root. */
  lemma {:induction false} ItemsOfFull(next: Puzzle -> seq<Puzzle>, p: Puzzle, k: nat, d: nat)
    requires 1 <= d <= k + 1
    ensures Roots(ItemsAt(Full(next, p, k), d)) == Level(next, p, d - 1)
    decreases k, 1, 0
  {
    if d > 1 {
      var cs := next(p);
      var ts := Full(next, p, k).children;
      if d == 2 {
        LevelAllZero(next, cs);
        RootsOfFull(next, cs, ts, k - 1);
      } else {
        ItemsOfFullAll(next, cs, ts, k - 1, d);
        assert ItemsAt(Full(next, p, k), d) == ItemsAtAll(ts, d);
        assert Level(next, p, d - 1) == LevelAll(next, cs, d - 2);
      }
    }
  }

  lemma {:induction false} ItemsOfFullAll(next: Puzzle -> seq<Puzzle>, ps: seq<Puzzle>, ts: seq<Tree>, k: nat, d: nat)
    requires |ts| == |ps| && forall i :: 0 <= i < |ps| ==> ts[i] == Full(next, ps[i], k)
    requires 2 <= d <= k + 2
    ensures Roots(ItemsAtAll(ts, d)) == LevelAll(next, ps, d - 2)
    decreases k, 2, |ps|
  {
    if ps != [] {
      var us := ts[1..];
      var qs := ps[1..];
      assert forall i :: 0 <= i < |qs| ==> us[i] == ts[i + 1] && qs[i] == ps[i + 1];
      assert ts[0] == Full(next, ps[0], k);
      ItemsOfFull(next, ps[0], k, d - 1);
      ItemsOfFullAll(next, qs, us, k, d);
      var a := ItemsAt(ts[0], d - 1);
      var b := ItemsAtAll(us, d);
      assert ItemsAtAll(ts, d) == a + b;
      RootsAppend(a, b);
      assert LevelAll(next, ps, d - 2) == Level(next, ps[0], d - 2) + LevelAll(next, qs, d - 2);
    }
  }

  // ---------------------------------------------------------------------
  // hint_by_depth_helper
  // ---------------------------------------------------------------------

  /** Some puzzle of ps is solved. */
  predicate AnySolved(solved: Puzzle -> bool, ps: seq<Puzzle>)
  {
    exists i :: 0 <= i < |ps| && solved(ps[i])
  }

  /** The test of the first loop on one child `obj`: its root is solved, or
      the root of some subtree at a depth 2..n of it is. */
  predicate LeadsToSolution(solved: Puzzle -> bool, obj: Tree, n: int)
  {
    solved(obj.root) ||
    exists dep :: 2 <= dep <= n && AnySolved(solved, Roots(ItemsAt(obj, dep)))
  }

  /** The test of the second loop: `items_at_depth(n)` is not empty. */
  predicate Reaches(obj: Tree, n: int)
    requires n >= 1
  {
    |ItemsAt(obj, n)| != 0
  }

  /** The position of the first of ts that leads to a solution; |ts| when
      there is none. */
  function FirstLeading(solved: Puzzle -> bool, ts: seq<Tree>, n: int): (k: nat)
    ensures k <= |ts|
    ensures k < |ts| ==> LeadsToSolution(solved, ts[k], n)
    ensures forall j :: 0 <= j < k ==> !LeadsToSolution(solved, ts[j], n)
  {
    if ts == [] then 0
    else if LeadsToSolution(solved, ts[0], n) then 0
    else 1 + FirstLeading(solved, ts[1..], n)
  }

  /** The position of the first of ts that reaches depth n; |ts| when there
      is none. */
  function FirstReaching(ts: seq<Tree>, n: int): (k: nat)
    requires n >= 1
    ensures k <= |ts|
    ensures k < |ts| ==> Reaches(ts[k], n)
    ensures forall j :: 0 <= j < k ==> !Reaches(ts[j], n)
  {
    if ts == [] then 0
    else if Reaches(ts[0], n) then 0
    else 1 + FirstReaching(ts[1..], n)
  }

  /** A position with the two properties of `FirstLeading` is its value. */
  lemma FirstLeadingAt(solved: Puzzle -> bool, ts: seq<Tree>, n: int, i: nat)
    requires i <= |ts| && (i < |ts| ==> LeadsToSolution(solved, ts[i], n))
    requires forall j :: 0 <= j < i ==> !LeadsToSolution(solved, ts[j], n)
    ensures FirstLeading(solved, ts, n) == i
  {
  }

  lemma FirstReachingAt(ts: seq<Tree>, n: int, i: nat)
    requires n >= 1 && i <= |ts| && (i < |ts| ==> Reaches(ts[i], n))
    requires forall j :: 0 <= j < i ==> !Reaches(ts[j], n)
    ensures FirstReaching(ts, n) == i
  {
  }

  /** The two loops of `hint_by_depth_helper` over
      `solution_tree.items_at_depth(2)`: the first child that leads to a
      solution, else the first that reaches depth n, else None. */
  function Choose(solved: Puzzle -> bool, t: Tree, n: int): Option<Puzzle>
    requires n >= 1
  {
    Pick(solved, ItemsAt(t, 2), n)
  }

  /** The two loops on the list `next_move` of children. */
  function Pick(solved: Puzzle -> bool, nextMove: seq<Tree>, n: int): Option<Puzzle>
    requires n >= 1
  {
    var k := FirstLeading(solved, nextMove, n);
    if k < |nextMove| then Some(nextMove[k].root)
    else
      var m := FirstReaching(nextMove, n);
      if m < |nextMove| then Some(nextMove[m].root) else None
  }

  /** The reference for the first loop: c is solved, or some puzzle 1 to
      n - 1 moves below c is. */
  predicate SolvableWithin(next: Puzzle -> seq<Puzzle>, solved: Puzzle -> bool, c: Puzzle, n: int)
  {
    solved(c) || exists k: nat :: 1 <= k < n && AnySolved(solved, Level(next, c, k))
  }

  lemma LeadsOfFull(next: Puzzle -> seq<Puzzle>, solved: Puzzle -> bool, c: Puzzle, n: int)
    requires n >= 1
    ensures LeadsToSolution(solved, Full(next, c, n - 1), n) <==> SolvableWithin(next, solved, c, n)
  {
    var t := Full(next, c, n - 1);
    assert t.root == c;
    forall dep | 2 <= dep <= n
      ensures Roots(ItemsAt(t, dep)) == Level(next, c, dep - 1)
    {
      ItemsOfFull(next, c, n - 1, dep);
    }
    if LeadsToSolution(solved, t, n) && !solved(c) {
      var dep :| 2 <= dep <= n && AnySolved(solved, Roots(ItemsAt(t, dep)));
      assert AnySolved(solved, Level(next, c, dep - 1));
    }
    if SolvableWithin(next, solved, c, n) && !solved(c) {
      var k: nat :| 1 <= k < n && AnySolved(solved, Level(next, c, k));
      assert AnySolved(solved, Roots(ItemsAt(t, k + 1)));
    }
  }

  lemma ReachesOfFull(next: Puzzle -> seq<Puzzle>, c: Puzzle, n: int)
    requires n >= 1
    ensures Reaches(Full(next, c, n - 1), n) <==> Level(next, c, n - 1) != []
  {
    ItemsOfFull(next, c, n - 1, n);
  }

  /** cs[i] is the first of cs that can lead to a solution within n moves. */
  predicate FirstSolvable(next: Puzzle -> seq<Puzzle>, solved: Puzzle -> bool, cs: seq<Puzzle>, n: int, i: int)
  {
    0 <= i < |cs| && SolvableWithin(next, solved, cs[i], n) &&
    forall j :: 0 <= j < i ==> !SolvableWithin(next, solved, cs[j], n)
  }

  /** cs[i] is the first of cs from which n - 1 further moves are possible. */
  predicate FirstReachable(next: Puzzle -> seq<Puzzle>, cs: seq<Puzzle>, n: int, i: int)
    requires n >= 1
  {
    0 <= i < |cs| && Level(next, cs[i], n - 1) != [] &&
    forall j :: 0 <= j < i ==> Level(next, cs[j], n - 1) == []
  }

  predicate NoneSolvable(next: Puzzle -> seq<Puzzle>, solved: Puzzle -> bool, cs: seq<Puzzle>, n: int)
  {
    forall j :: 0 <= j < |cs| ==> !SolvableWithin(next, solved, cs[j], n)
  }

  /** The choice on the expansion n moves deep below p, stated on the
      extensions of p: the first that is solved or leads to a solved puzzle
      within n - 1 further moves; else the first from which n - 1 further
      moves are possible; else None. */
  lemma {:induction false} ChooseOnFull(next: Puzzle -> seq<Puzzle>, solved: Puzzle -> bool, p: Puzzle, n: int)
    requires n >= 1
    ensures var r := Choose(solved, Full(next, p, n), n); r.Some? ==> r.value in next(p)
    ensures forall i :: FirstSolvable(next, solved, next(p), n, i) ==>
      Choose(solved, Full(next, p, n), n) == Some(next(p)[i])
    ensures NoneSolvable(next, solved, next(p), n) ==>
      forall i :: FirstReachable(next, next(p), n, i) ==> Choose(solved, Full(next, p, n), n) == Some(next(p)[i])
    ensures Choose(solved, Full(next, p, n), n).None? <==>
      NoneSolvable(next, solved, next(p), n) && forall j :: 0 <= j < |next(p)| ==> Level(next, next(p)[j], n - 1) == []
  {
    var cs := next(p);
    var ts := ItemsAt(Full(next, p, n), 2);
    assert |ts| == |cs|;
    forall i | 0 <= i < |cs|
      ensures ts[i].root == cs[i]
      ensures LeadsToSolution(solved, ts[i], n) <==> SolvableWithin(next, solved, cs[i], n)
      ensures Reaches(ts[i], n) <==> Level(next, cs[i], n - 1) != []
    {
      assert ts[i] == Full(next, cs[i], n - 1);
      LeadsOfFull(next, solved, cs[i], n);
      ReachesOfFull(next, cs[i], n);
    }
    assert Choose(solved, Full(next, p, n), n) == Pick(solved, ts, n);
  }

  // ---------------------------------------------------------------------
  // hint_by_depth on puzzles
  // ---------------------------------------------------------------------

  /** `extensions()` and `is_solved()` as the functions the trees are built
      and searched with. */
  function Successors(words: seq<string>): Puzzle -> seq<Puzzle>
  {
    p => Next(words, p)
  }

  function SolvedIn(words: seq<string>): Puzzle -> bool
  {
    p => Solved(words, p)
  }

  /** `hint_by_depth_helper(puzzle, n)`: build the tree n moves deep below a
      fresh tree holding the puzzle, then choose among its children. */
  function HintByDepthHelper(words: seq<string>, p: Puzzle, n: int): Option<Puzzle>
    requires n >= 1
  {
    Choose(SolvedIn(words), Build(Successors(words), Node(p, []), n), n)
  }

  /** The selection order of `hint_by_depth_helper`, on the extensions of
      the puzzle: the first one solved, or with a solved puzzle within n - 1
      further moves; otherwise the first one from which n - 1 further moves
      are possible; otherwise None. */
  lemma HelperChoosesExtension(words: seq<string>, p: Puzzle, n: int)
    requires Valid(p) && n >= 1
    ensures var r := HintByDepthHelper(words, p, n); r.Some? ==> r.value in Extensions(words, p)
    ensures forall i :: FirstSolvable(Successors(words), SolvedIn(words), Extensions(words, p), n, i) ==>
      HintByDepthHelper(words, p, n) == Some(Extensions(words, p)[i])
    ensures NoneSolvable(Successors(words), SolvedIn(words), Extensions(words, p), n) ==>
      forall i :: FirstReachable(Successors(words), Extensions(words, p), n, i) ==>
        HintByDepthHelper(words, p, n) == Some(Extensions(words, p)[i])
    ensures HintByDepthHelper(words, p, n).None? <==>
      NoneSolvable(Successors(words), SolvedIn(words), Extensions(words, p), n) &&
      forall j :: 0 <= j < |Extensions(words, p)| ==>
        Level(Successors(words), Extensions(words, p)[j], n - 1) == []
  {
    var next := Successors(words);
    assert next(p) == Extensions(words, p);
    BuildFromLeaf(next, p, n);
    ChooseOnFull(next, SolvedIn(words), p, n);
  }

  /** `hint_by_depth(puzzle, n)`. */
  function HintByDepth(words: seq<string>, p: Puzzle, n: int): Result<string>
    requires Valid(p) && n >= 1
  {
    if IsSolved(words, p) then Ok("Already at a solution!")
    else
      match HintByDepthHelper(words, p, n)
      case None => Ok("No possible extensions!")
      case Some(c) => Hint(p, c)
  }

  /** The message of `hint_by_depth`: the two fixed texts, or the hint of
      an extension, which is a valid move whose result is that extension. */
  lemma HintByDepthIsMove(words: seq<string>, p: Puzzle, n: int)
    requires Valid(p) && n >= 1
    ensures IsSolved(words, p) ==> HintByDepth(words, p, n) == Ok("Already at a solution!")
    ensures !IsSolved(words, p) && HintByDepthHelper(words, p, n).None? ==>
      HintByDepth(words, p, n) == Ok("No possible extensions!")
    ensures !IsSolved(words, p) && HintByDepthHelper(words, p, n).Some? ==>
      var c := HintByDepthHelper(words, p, n).value;
      var message := HintByDepth(words, p, n);
      c in Extensions(words, p) && message.Ok? && IsValid(words, p, message.value) == Ok(true) &&
      Move(words, p, message.value) == Ok(c)
  {
    var r := HintByDepthHelper(words, p, n);
    if !IsSolved(words, p) && r.Some? {
      HelperChoosesExtension(words, p, n);
      HintRoundTrip(words, p, r.value);
    }
  }

  // ---------------------------------------------------------------------
  // The class SolutionTree
  // ---------------------------------------------------------------------

  lemma {:induction false} ItemsAtAllAppend(a: seq<Tree>, b: seq<Tree>, d: nat)
    requires d >= 2
    ensures ItemsAtAll(a + b, d) == ItemsAtAll(a, d) + ItemsAtAll(b, d)
  {
    if a == [] {
      assert a + b == b;
    } else {
      assert (a + b)[1..] == a[1..] + b;
      ItemsAtAllAppend(a[1..], b, d);
    }
  }

  lemma ItemsAtAllSnoc(ts: seq<Tree>, i: nat, d: nat)
    requires i < |ts| && d >= 2
    ensures ItemsAtAll(ts[..i + 1], d) == ItemsAtAll(ts[..i], d) + ItemsAt(ts[i], d - 1)
  {
    assert ts[..i + 1] == ts[..i] + [ts[i]];
    ItemsAtAllAppend(ts[..i], [ts[i]], d);
    assert ItemsAtAll([ts[i]], d) == ItemsAt(ts[i], d - 1) + ItemsAtAll([], d);
  }

  ghost function ModelsOf(ts: seq<SolutionTree>): (ms: seq<Tree>)
    reads ts
    ensures |ms| == |ts| && forall i :: 0 <= i < |ts| ==> ms[i] == ts[i].model
  {
    if ts == [] then [] else [ts[0].model] + ModelsOf(ts[1..])
  }

  ghost function ReprOf(ts: seq<SolutionTree>): (r: set<object>)
    reads ts
    ensures forall i :: 0 <= i < |ts| ==> ts[i].Repr <= r
  {
    if ts == [] then {} else ts[0].Repr + ReprOf(ts[1..])
  }

  /** A node of the tree: its puzzle `_root` and its list `_extensions` of
      subtrees, which `add_extensions` extends in place. `model` is the
      value the node stands for and `Repr` the objects it is made of. */
  class SolutionTree {
    const root: Puzzle
    var extensions: seq<SolutionTree>
    ghost var model: Tree
    ghost var Repr: set<object>

    ghost predicate Valid()
      reads this, Repr
      decreases Repr
    {
      this in Repr && model.root == root && |model.children| == |extensions| &&
      (forall i :: 0 <= i < |extensions| ==>
        extensions[i] in Repr && extensions[i].Repr <= Repr && this !in extensions[i].Repr &&
        extensions[i].Valid() && extensions[i].model == model.children[i]) &&
      (forall i, j :: 0 <= i < j < |extensions| ==> extensions[i].Repr !! extensions[j].Repr)
    }

    /** `SolutionTree(puzzle)`: a node without extensions. */
    constructor(p: Puzzle)
      ensures Valid() && fresh(Repr)
      ensures root == p && extensions == [] && model == Node(p, [])
    {
      root := p;
      extensions := [];
      model := Node(p, []);
      Repr := {this};
    }

    /** `add_extensions(new_trees)`: the trees are appended, in order, to
        the extensions of this node, which keeps its root. */
    method AddExtensions(newTrees: seq<SolutionTree>)
      requires Valid()
      requires forall i :: 0 <= i < |newTrees| ==> newTrees[i].Valid()
      requires forall i, j :: 0 <= i < j < |newTrees| ==> newTrees[i].Repr !! newTrees[j].Repr
      requires ReprOf(newTrees) !! Repr
      modifies this
      ensures Valid()
      ensures extensions == old(extensions) + newTrees
      ensures model == Node(root, old(model.children) + old(ModelsOf(newTrees)))
      ensures Repr == old(Repr) + old(ReprOf(newTrees))
    {
      ghost var added := ModelsOf(newTrees);
      ghost var before := extensions;
      assert forall k :: 0 <= k < |newTrees| ==> this !in newTrees[k].Repr;
      extensions := extensions + newTrees;
      model := Node(root, model.children + added);
      Repr := Repr + ReprOf(newTrees);
      forall i | 0 <= i < |extensions|
        ensures extensions[i].Valid() && extensions[i].model == model.children[i]
      {
        if i < |before| {
          assert extensions[i] == before[i];
        } else {
          assert extensions[i] == newTrees[i - |before|];
        }
      }
    }

    /** `items_at_depth(d)`: the nodes at depth d below this one, left to
        right. Depth 1 is this node itself. */
    method ItemsAtDepth(d: nat) returns (items: seq<SolutionTree>)
      requires Valid() && d >= 1
      ensures |items| == |ItemsAt(model, d)|
      ensures forall i :: 0 <= i < |items| ==>
        items[i].Valid() && items[i].model == ItemsAt(model, d)[i] && items[i].root == items[i].model.root
      decreases Repr
    {
      if d == 1 {
        items := [this];
      } else if d == 2 {
        items := extensions;
      } else {
        items := [];
        var i := 0;
        while i < |extensions|
          invariant 0 <= i <= |extensions|
          invariant |items| == |ItemsAtAll(model.children[..i], d)|
          invariant forall k :: 0 <= k < |items| ==>
            items[k].Valid() && items[k].model == ItemsAtAll(model.children[..i], d)[k] &&
            items[k].root == items[k].model.root
        {
          var sub := extensions[i].ItemsAtDepth(d - 1);
          ItemsAtAllSnoc(model.children, i, d);
          items := items + sub;
          i := i + 1;
        }
        assert model.children[..i] == model.children;
      }
    }
  }

  // ---------------------------------------------------------------------
  // build_solution_tree on the objects
  // ---------------------------------------------------------------------

  /** The first loop of `build_solution_tree`: one new leaf per extension of
      the puzzle at t, each passed to `add_extensions` on its own. */
  method GrowNode(next: Puzzle -> seq<Puzzle>, t: SolutionTree)
    requires t.Valid()
    modifies t
    ensures t.Valid() && fresh(t.Repr - old(t.Repr)) && old(t.Repr) <= t.Repr
    ensures t.model == Grow(next, old(t.model))
  {
    var exten := next(t.root);
    var i := 0;
    while i < |exten|
      invariant 0 <= i <= |exten|
      invariant t.Valid() && fresh(t.Repr - old(t.Repr)) && old(t.Repr) <= t.Repr
      invariant t.model == Node(t.root, old(t.model.children) + Leaves(exten[..i]))
    {
      var subroot := new SolutionTree(exten[i]);
      assert ModelsOf([subroot]) == [subroot.model];
      assert ReprOf([subroot]) == subroot.Repr;
      t.AddExtensions([subroot]);
      assert Leaves(exten[..i + 1]) == Leaves(exten[..i]) + [Node(exten[i], [])];
      i := i + 1;
    }
    assert exten[..i] == exten;
  }

  /** The body of the second step: the first loop run on extension i. */
  method GrowChild(next: Puzzle -> seq<Puzzle>, t: SolutionTree, i: nat)
    requires t.Valid() && i < |t.extensions|
    modifies t.Repr
    ensures t.Valid() && fresh(t.Repr - old(t.Repr)) && old(t.Repr) <= t.Repr
    ensures t.extensions == old(t.extensions)
    ensures t.model == Node(old(t.model.root), old(t.model.children)[i := Grow(next, old(t.model.children[i]))])
  {
    var obj := t.extensions[i];
    GrowNode(next, obj);
    t.model := Node(t.model.root, t.model.children[i := obj.model]);
    t.Repr := t.Repr + obj.Repr;
    forall k | 0 <= k < |t.extensions| && k != i
      ensures t.extensions[k].Valid() && t.extensions[k].Repr == old(t.extensions[k].Repr)
    {
      assert old(t.extensions[k].Repr !! obj.Repr);
    }
  }

  /** The second step of `build_solution_tree`: the first loop run on every
      extension of t. */
  method GrowEach(next: Puzzle -> seq<Puzzle>, t: SolutionTree)
    requires t.Valid()
    modifies t.Repr
    ensures t.Valid() && fresh(t.Repr - old(t.Repr)) && old(t.Repr) <= t.Repr
    ensures t.model == GrowChildren(next, old(t.model))
  {
    ghost var before := t.model.children;
    var i := 0;
    while i < |t.extensions|
      invariant 0 <= i <= |t.extensions| == |before|
      invariant t.Valid() && fresh(t.Repr - old(t.Repr)) && old(t.Repr) <= t.Repr
      invariant t.extensions == old(t.extensions)
      invariant t.model.root == old(t.model.root) && |t.model.children| == |before|
      invariant forall k :: 0 <= k < i ==> t.model.children[k] == Grow(next, before[k])
      invariant forall k :: i <= k < |before| ==> t.model.children[k] == before[k]
    {
      GrowChild(next, t, i);
      i := i + 1;
    }
  }

  /** `build_solution_tree(root, n)`, in place: the tree at root ends as
      `Build` of the tree it started as, its old objects kept and every
      added object new. */
  method BuildSolutionTree(next: Puzzle -> seq<Puzzle>, root: SolutionTree, n: int) returns (r: SolutionTree)
    requires root.Valid()
    modifies root.Repr
    ensures r == root && root.Valid() && fresh(root.Repr - old(root.Repr)) && old(root.Repr) <= root.Repr
    ensures root.model == Build(next, old(root.model), n)
    decreases if n < 0 then 0 else n, 4
  {
    GrowNode(next, root);
    var m := n - 1;
    if m < 1 {
      return root;
    }
    GrowEach(next, root);
    m := m - 1;
    if m < 1 {
      return root;
    }
    BuildGrandchildrenLoop(next, root, n);
    return root;
  }

  /** The third step of `build_solution_tree`: every grandchild built with
      n - 2. */
  method BuildGrandchildrenLoop(next: Puzzle -> seq<Puzzle>, t: SolutionTree, n: int)
    requires t.Valid() && n >= 3
    modifies t.Repr
    ensures t.Valid() && fresh(t.Repr - old(t.Repr)) && old(t.Repr) <= t.Repr
    ensures t.model == BuildGrandchildren(next, old(t.model), n)
    decreases n, 3
  {
    ghost var before := t.model.children;
    var i := 0;
    while i < |t.extensions|
      invariant 0 <= i <= |t.extensions| == |before|
      invariant t.Valid() && fresh(t.Repr - old(t.Repr)) && old(t.Repr) <= t.Repr
      invariant t.extensions == old(t.extensions)
      invariant t.model.root == old(t.model.root) && |t.model.children| == |before|
      invariant forall k :: 0 <= k < i ==> t.model.children[k] == BuildChildren(next, before[k], n)
      invariant forall k :: i <= k < |before| ==> t.model.children[k] == before[k]
    {
      BuildChoice(next, t, i, n);
      i := i + 1;
    }
  }

  /** One turn of the third step, on extension i of t. */
  method BuildChoice(next: Puzzle -> seq<Puzzle>, t: SolutionTree, i: nat, n: int)
    requires t.Valid() && i < |t.extensions| && n >= 3
    modifies t.Repr
    ensures t.Valid() && fresh(t.Repr - old(t.Repr)) && old(t.Repr) <= t.Repr
    ensures t.extensions == old(t.extensions)
    ensures t.model == Node(old(t.model.root), old(t.model.children)[i := BuildChildren(next, old(t.model.children[i]), n)])
    decreases n, 2
  {
    var choice := t.extensions[i];
    BuildEachNest(next, choice, n);
    t.model := Node(t.model.root, t.model.children[i := choice.model]);
    t.Repr := t.Repr + choice.Repr;
    forall k | 0 <= k < |t.extensions| && k != i
      ensures t.extensions[k].Valid() && t.extensions[k].Repr == old(t.extensions[k].Repr)
    {
      assert old(t.extensions[k].Repr !! choice.Repr);
    }
  }

  /** The inner loop of the third step: every subtree of one choice built
      with n - 2. */
  method BuildEachNest(next: Puzzle -> seq<Puzzle>, c: SolutionTree, n: int)
    requires c.Valid() && n >= 3
    modifies c.Repr
    ensures c.Valid() && fresh(c.Repr - old(c.Repr)) && old(c.Repr) <= c.Repr
    ensures c.model == BuildChildren(next, old(c.model), n)
    decreases n, 1
  {
    ghost var before := c.model.children;
    var j := 0;
    while j < |c.extensions|
      invariant 0 <= j <= |c.extensions| == |before|
      invariant c.Valid() && fresh(c.Repr - old(c.Repr)) && old(c.Repr) <= c.Repr
      invariant c.extensions == old(c.extensions)
      invariant c.model.root == old(c.model.root) && |c.model.children| == |before|
      invariant forall k :: 0 <= k < j ==> c.model.children[k] == Build(next, before[k], n - 2)
      invariant forall k :: j <= k < |before| ==> c.model.children[k] == before[k]
    {
      BuildNest(next, c, j, n);
      j := j + 1;
    }
  }

  /** `build_solution_tree(nest_obj, n - 2)` on subtree j of c. */
  method BuildNest(next: Puzzle -> seq<Puzzle>, c: SolutionTree, j: nat, n: int)
    requires c.Valid() && j < |c.extensions| && n >= 3
    modifies c.Repr
    ensures c.Valid() && fresh(c.Repr - old(c.Repr)) && old(c.Repr) <= c.Repr
    ensures c.extensions == old(c.extensions)
    ensures c.model == Node(old(c.model.root), old(c.model.children)[j := Build(next, old(c.model.children[j]), n - 2)])
    decreases n, 0
  {
    var nest := c.extensions[j];
    var _ := BuildSolutionTree(next, nest, n - 2);
    c.model := Node(c.model.root, c.model.children[j := nest.model]);
    c.Repr := c.Repr + nest.Repr;
    forall k | 0 <= k < |c.extensions| && k != j
      ensures c.extensions[k].Valid() && c.extensions[k].Repr == old(c.extensions[k].Repr)
    {
      assert old(c.extensions[k].Repr !! nest.Repr);
    }
  }

  // ---------------------------------------------------------------------
  // hint_by_depth_helper and hint_by_depth on the objects
  // ---------------------------------------------------------------------

  /** The innermost loop of `hint_by_depth_helper`: some node among items
      holds a solved puzzle. */
  method AnyRootSolved(solved: Puzzle -> bool, items: seq<SolutionTree>) returns (b: bool)
    ensures b <==> exists q :: 0 <= q < |items| && solved(items[q].root)
  {
    var j := 0;
    while j < |items|
      invariant 0 <= j <= |items|
      invariant forall q :: 0 <= q < j ==> !solved(items[q].root)
    {
      if solved(items[j].root) {
        return true;
      }
      j := j + 1;
    }
    return false;
  }

  /** The test inside the first loop of `hint_by_depth_helper`, by its
      loops: the root of obj is solved, or some node at a depth 2..n of obj
      holds a solved puzzle. */
  method LeadsScan(solved: Puzzle -> bool, obj: SolutionTree, n: int) returns (b: bool)
    requires obj.Valid() && n >= 1
    ensures b == LeadsToSolution(solved, obj.model, n)
  {
    if solved(obj.root) {
      return true;
    }
    var dep := 2;
    while dep <= n
      invariant 2 <= dep <= n + 1
      invariant forall d :: 2 <= d < dep ==> !AnySolved(solved, Roots(ItemsAt(obj.model, d)))
    {
      var reached := obj.ItemsAtDepth(dep);
      var found := AnyRootSolved(solved, reached);
      ghost var roots := Roots(ItemsAt(obj.model, dep));
      assert forall q :: 0 <= q < |reached| ==> reached[q].root == roots[q];
      if found {
        return true;
      }
      dep := dep + 1;
    }
    return false;
  }

  /** The first loop of `hint_by_depth_helper`: the position of the first
      child that leads to a solution, |nextMove| if none does. */
  method FirstLeadingScan(solved: Puzzle -> bool, nextMove: seq<SolutionTree>, n: int) returns (i: nat)
    requires n >= 1
    requires forall j :: 0 <= j < |nextMove| ==> nextMove[j].Valid()
    ensures i == FirstLeading(solved, ModelsOf(nextMove), n)
  {
    ghost var ts := ModelsOf(nextMove);
    i := 0;
    while i < |nextMove|
      invariant 0 <= i <= |nextMove|
      invariant forall j :: 0 <= j < i ==> !LeadsToSolution(solved, ts[j], n)
    {
      var b := LeadsScan(solved, nextMove[i], n);
      if b {
        FirstLeadingAt(solved, ts, n, i);
        return;
      }
      i := i + 1;
    }
    FirstLeadingAt(solved, ts, n, i);
  }

  /** The second loop of `hint_by_depth_helper`: the position of the first
      child with a node at depth n, |nextMove| if none has one. */
  method FirstReachingScan(nextMove: seq<SolutionTree>, n: int) returns (i: nat)
    requires n >= 1
    requires forall j :: 0 <= j < |nextMove| ==> nextMove[j].Valid()
    ensures i == FirstReaching(ModelsOf(nextMove), n)
  {
    ghost var ts := ModelsOf(nextMove);
    i := 0;
    while i < |nextMove|
      invariant 0 <= i <= |nextMove|
      invariant forall j :: 0 <= j < i ==> !Reaches(ts[j], n)
    {
      var reachedAtN := nextMove[i].ItemsAtDepth(n);
      if |reachedAtN| != 0 {
        FirstReachingAt(ts, n, i);
        return;
      }
      i := i + 1;
    }
    FirstReachingAt(ts, n, i);
  }

  /** The two loops of `hint_by_depth_helper` over `next_move`. */
  method PickAmong(solved: Puzzle -> bool, nextMove: seq<SolutionTree>, n: int) returns (r: Option<Puzzle>)
    requires n >= 1
    requires forall j :: 0 <= j < |nextMove| ==> nextMove[j].Valid()
    ensures r == Pick(solved, ModelsOf(nextMove), n)
  {
    var k := FirstLeadingScan(solved, nextMove, n);
    if k < |nextMove| {
      return Some(nextMove[k].root);
    }
    var m := FirstReachingScan(nextMove, n);
    if m < |nextMove| {
      return Some(nextMove[m].root);
    }
    return None;
  }

  /** `hint_by_depth_helper(puzzle, n)` for any successor and solved test:
      a new tree for p, built n deep, then the two loops over its
      children. */
  method ChooseHint(next: Puzzle -> seq<Puzzle>, solved: Puzzle -> bool, p: Puzzle, n: int)
    returns (r: Option<Puzzle>)
    requires n >= 1
    ensures r == Choose(solved, Build(next, Node(p, []), n), n)
  {
    var start := new SolutionTree(p);
    var solutionTree := BuildSolutionTree(next, start, n);
    var nextMove := solutionTree.ItemsAtDepth(2);
    assert ModelsOf(nextMove) == ItemsAt(solutionTree.model, 2);
    r := PickAmong(solved, nextMove, n);
  }

  /** `hint_by_depth_helper` on puzzles. */
  method HintByDepthHelperMethod(words: seq<string>, p: Puzzle, n: int) returns (r: Option<Puzzle>)
    requires n >= 1
    ensures r == HintByDepthHelper(words, p, n)
  {
    r := ChooseHint(Successors(words), SolvedIn(words), p, n);
  }

  /** `hint_by_depth(puzzle, n)`, which runs the helper a second time to
      get the extension it hints at. */
  method HintByDepthMethod(words: seq<string>, p: Puzzle, n: int) returns (message: Result<string>)
    requires Valid(p) && n >= 1
    ensures message == HintByDepth(words, p, n)
  {
    if IsSolved(words, p) {
      message := Ok("Already at a solution!");
    } else {
      var found := HintByDepthHelperMethod(words, p, n);
      if found.None? {
        message := Ok("No possible extensions!");
      } else {
        var again := HintByDepthHelperMethod(words, p, n);
        message := Hint(p, again.value);
      }
    }
  }
}
