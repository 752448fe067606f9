/** The `StateTree` of the puzzle controller: the tree of every puzzle state
    the user has reached, each node holding its state, its position `tup`,
    the state and position of its parent, the command that led to it, and
    the list `input` of the states reached from it. States are compared with
    `==`; every state of one tree belongs to the same game, where `__eq__` is
    equality (`Puzzles.EqualIsEquality`). */
module StateTrees {
  import opened Common
  import opened Puzzles

  /** The position tuple of a node. */
  type Index = (int, int)

  /** The value a node stands for, with the values of its subtrees. */
  datatype History = Visit(state: Puzzle, tup: Index, prevState: Option<Puzzle>, prevIndex: Option<Index>,
                           command: Option<string>, input: seq<History>)

  /** `add_child(child)`: the child appended to `input`. */
  function WithChild(h: History, c: History): History
  {
    h.(input := h.input + [c])
  }

  /** `obj in tree`: some node of the tree holds the state p. */
  predicate Visited(h: History, p: Puzzle)
    decreases h
  {
    h.state == p || exists i :: 0 <= i < |h.input| && Visited(h.input[i], p)
  }

  // ---------------------------------------------------------------------
  // save, get_prev and get_attempt on the value
  // ---------------------------------------------------------------------

  /** `save(child, curr)`: the tree with c appended under the first node,
      in preorder, that holds curr, and whether there was one. */
  function Saved(h: History, c: History, curr: Puzzle): (History, bool)
    decreases h, 1
  {
    if h.state == curr then (WithChild(h, c), true) else SavedFrom(h, 0, c, curr)
  }

  /** The loop of `save` over `input`, from position i on. */
  function SavedFrom(h: History, i: nat, c: History, curr: Puzzle): (History, bool)
    requires i <= |h.input|
    decreases h, 0, |h.input| - i
  {
    if i == |h.input| then (h, false)
    else
      var s := h.input[i];
      if s.state == curr then (h.(input := h.input[i := WithChild(s, c)]), true)
      else
        var r := Saved(s, c, curr);
        if r.1 then (h.(input := h.input[i := r.0]), true)
        else SavedFrom(h, i + 1, c, curr)
  }

  /** `get_prev(curr)`: the parent state and index of the first node that
      holds curr, or None for `([], False)`. */
  function PrevOf(h: History, curr: Puzzle): Option<(Option<Puzzle>, Option<Index>)>
    decreases h, 1
  {
    if h.state == curr then Some((h.prevState, h.prevIndex)) else PrevFrom(h, 0, curr)
  }

  function PrevFrom(h: History, i: nat, curr: Puzzle): Option<(Option<Puzzle>, Option<Index>)>
    requires i <= |h.input|
    decreases h, 0, |h.input| - i
  {
    if i == |h.input| then None
    else
      var s := h.input[i];
      if s.state == curr then Some((s.prevState, s.prevIndex))
      else if PrevOf(s, curr).Some? then PrevOf(s, curr)
      else PrevFrom(h, i + 1, curr)
  }

  /** `get_attempt(curr)`: the `input` list of the first node that holds
      curr, or None for `([], False)`. */
  function AttemptsOf(h: History, curr: Puzzle): Option<seq<History>>
    decreases h, 1
  {
    if h.state == curr then Some(h.input) else AttemptsFrom(h, 0, curr)
  }

  function AttemptsFrom(h: History, i: nat, curr: Puzzle): Option<seq<History>>
    requires i <= |h.input|
    decreases h, 0, |h.input| - i
  {
    if i == |h.input| then None
    else
      var s := h.input[i];
      if s.state == curr then Some(s.input)
      else if AttemptsOf(s, curr).Some? then AttemptsOf(s, curr)
      else AttemptsFrom(h, i + 1, curr)
  }

  // ---------------------------------------------------------------------
  // Properties
  // ---------------------------------------------------------------------

  /** Some node of the children from position i on holds p. */
  predicate VisitedFrom(h: History, i: nat, p: Puzzle)
  {
    exists j :: i <= j < |h.input| && Visited(h.input[j], p)
  }

  /** `save` reports True exactly when some node holds curr, and leaves the
      tree as it was when none does. */
  lemma {:induction false} SavedFinds(h: History, c: History, curr: Puzzle)
    ensures Saved(h, c, curr).1 == Visited(h, curr)
    ensures !Saved(h, c, curr).1 ==> Saved(h, c, curr).0 == h
    decreases h, 1
  {
    if h.state != curr {
      SavedFromFinds(h, 0, c, curr);
    }
  }

  lemma {:induction false} SavedFromFinds(h: History, i: nat, c: History, curr: Puzzle)
    requires i <= |h.input|
    ensures SavedFrom(h, i, c, curr).1 == VisitedFrom(h, i, curr)
    ensures !SavedFrom(h, i, c, curr).1 ==> SavedFrom(h, i, c, curr).0 == h
    decreases h, 0, |h.input| - i
  {
    if i < |h.input| {
      var s := h.input[i];
      if s.state != curr {
        SavedFinds(s, c, curr);
        if !Saved(s, c, curr).1 {
          SavedFromFinds(h, i + 1, c, curr);
          if VisitedFrom(h, i, curr) {
            var j :| i <= j < |h.input| && Visited(h.input[j], curr);
            assert j != i;
          }
        }
      }
    }
  }

  /** `get_prev` finds a node exactly when some node holds curr. */
  lemma {:induction false} PrevFinds(h: History, curr: Puzzle)
    ensures PrevOf(h, curr).Some? == Visited(h, curr)
    decreases h, 1
  {
    if h.state != curr {
      PrevFromFinds(h, 0, curr);
    }
  }

  lemma {:induction false} PrevFromFinds(h: History, i: nat, curr: Puzzle)
    requires i <= |h.input|
    ensures PrevFrom(h, i, curr).Some? == VisitedFrom(h, i, curr)
    decreases h, 0, |h.input| - i
  {
    if i < |h.input| {
      var s := h.input[i];
      if s.state != curr {
        PrevFinds(s, curr);
        PrevFromFinds(h, i + 1, curr);
        if VisitedFrom(h, i, curr) && !Visited(s, curr) {
          var j :| i <= j < |h.input| && Visited(h.input[j], curr);
          assert j != i;
        }
      }
    }
  }

  /** `get_attempt` finds a node exactly when some node holds curr. */
  lemma {:induction false} AttemptsFinds(h: History, curr: Puzzle)
    ensures AttemptsOf(h, curr).Some? == Visited(h, curr)
    decreases h, 1
  {
    if h.state != curr {
      AttemptsFromFinds(h, 0, curr);
    }
  }

  lemma {:induction false} AttemptsFromFinds(h: History, i: nat, curr: Puzzle)
    requires i <= |h.input|
    ensures AttemptsFrom(h, i, curr).Some? == VisitedFrom(h, i, curr)
    decreases h, 0, |h.input| - i
  {
    if i < |h.input| {
      var s := h.input[i];
      if s.state != curr {
        AttemptsFinds(s, curr);
        AttemptsFromFinds(h, i + 1, curr);
        if VisitedFrom(h, i, curr) && !Visited(s, curr) {
          var j :| i <= j < |h.input| && Visited(h.input[j], curr);
          assert j != i;
        }
      }
    }
  }

  /** `save` appends the child to the very node `get_attempt` finds: after
      it, `get_attempt(curr)` lists the old attempts and then the child. */
  lemma {:induction false} SaveThenAttempts(h: History, c: History, curr: Puzzle)
    requires Visited(h, curr)
    ensures AttemptsOf(h, curr).Some? &&
      AttemptsOf(Saved(h, c, curr).0, curr) == Some(AttemptsOf(h, curr).value + [c])
    decreases h, 1
  {
    AttemptsFinds(h, curr);
    if h.state != curr {
      SavedFromFinds(h, 0, c, curr);
      AttemptsFromFinds(h, 0, curr);
      SaveFromThenAttempts(h, 0, c, curr);
      SavedFromKeeps(h, 0, c, curr);
    }
  }

  lemma {:induction false} SaveFromThenAttempts(h: History, i: nat, c: History, curr: Puzzle)
    requires i <= |h.input| && VisitedFrom(h, i, curr)
    ensures AttemptsFrom(h, i, curr).Some? && |SavedFrom(h, i, c, curr).0.input| == |h.input| &&
      AttemptsFrom(SavedFrom(h, i, c, curr).0, i, curr) == Some(AttemptsFrom(h, i, curr).value + [c])
    decreases h, 0, |h.input| - i
  {
    AttemptsFromFinds(h, i, curr);
    var s := h.input[i];
    if s.state != curr {
      SavedFinds(s, c, curr);
      AttemptsFinds(s, curr);
      if Saved(s, c, curr).1 {
        SaveThenAttempts(s, c, curr);
      } else {
        var j :| i <= j < |h.input| && Visited(h.input[j], curr);
        assert j != i;
        SaveFromThenAttempts(h, i + 1, c, curr);
        SavedFromKeeps(h, i + 1, c, curr);
      }
    }
  }

  /** The loop of `save` from position i on changes no earlier child and no
      field of the node but `input`. */
  lemma {:induction false} SavedFromKeeps(h: History, i: nat, c: History, curr: Puzzle)
    requires i <= |h.input|
    ensures var h' := SavedFrom(h, i, c, curr).0;
      h' == h.(input := h'.input) && |h'.input| == |h.input| && h'.input[..i] == h.input[..i]
    decreases |h.input| - i
  {
    if i < |h.input| && h.input[i].state != curr && !Saved(h.input[i], c, curr).1 {
      SavedFromKeeps(h, i + 1, c, curr);
    }
  }

  lemma VisitedFromStep(h: History, i: nat, p: Puzzle)
    requires i < |h.input|
    ensures VisitedFrom(h, i, p) <==> Visited(h.input[i], p) || VisitedFrom(h, i + 1, p)
  {
    if VisitedFrom(h, i, p) && !Visited(h.input[i], p) {
      var j :| i <= j < |h.input| && Visited(h.input[j], p);
      assert j != i;
    }
  }

  /** After `save`, the tree holds what it held before and, when some node
      held curr, everything the saved child holds. */
  lemma {:induction false} SaveVisited(h: History, c: History, curr: Puzzle, p: Puzzle)
    ensures Visited(Saved(h, c, curr).0, p) <==> Visited(h, p) || (Visited(h, curr) && Visited(c, p))
    decreases h, 1
  {
    if h.state == curr {
      var h' := WithChild(h, c);
      assert h'.input[|h.input|] == c;
      if Visited(h, p) && h.state != p {
        var j :| 0 <= j < |h.input| && Visited(h.input[j], p);
        assert h'.input[j] == h.input[j];
      }
      if Visited(h', p) && h.state != p && !Visited(c, p) {
        var j :| 0 <= j < |h'.input| && Visited(h'.input[j], p);
        assert h.input[j] == h'.input[j];
      }
    } else {
      SavedFromVisited(h, 0, c, curr, p);
      SavedFromKeeps(h, 0, c, curr);
      SavedFinds(h, c, curr);
    }
  }

  lemma {:induction false} SavedFromVisited(h: History, i: nat, c: History, curr: Puzzle, p: Puzzle)
    requires i <= |h.input|
    ensures |SavedFrom(h, i, c, curr).0.input| == |h.input|
    ensures VisitedFrom(SavedFrom(h, i, c, curr).0, i, p) <==>
      VisitedFrom(h, i, p) || (VisitedFrom(h, i, curr) && Visited(c, p))
    decreases h, 0, |h.input| - i
  {
    SavedFromKeeps(h, i, c, curr);
    if i < |h.input| {
      var s := h.input[i];
      var h' := SavedFrom(h, i, c, curr).0;
      VisitedFromStep(h, i, p);
      VisitedFromStep(h, i, curr);
      VisitedFromStep(h', i, p);
      if s.state == curr {
        SaveVisited(s, c, curr, p);
        SameFrom(h, h', i + 1, p);
      } else {
        SavedFinds(s, c, curr);
        SaveVisited(s, c, curr, p);
        if Saved(s, c, curr).1 {
          SameFrom(h, h', i + 1, p);
        } else {
          SavedFromVisited(h, i + 1, c, curr, p);
          SavedFromKeeps(h, i + 1, c, curr);
          assert h'.input[i] == s;
        }
      }
    }
  }

  /** Trees whose children agree from position i on hold the same states
      there. */
  lemma SameFrom(h: History, h': History, i: nat, p: Puzzle)
    requires i <= |h.input| == |h'.input|
    requires forall j :: i <= j < |h.input| ==> h.input[j] == h'.input[j]
    ensures VisitedFrom(h, i, p) <==> VisitedFrom(h', i, p)
  {
    if VisitedFrom(h, i, p) {
      var j :| i <= j < |h.input| && Visited(h.input[j], p);
      assert Visited(h'.input[j], p);
    }
    if VisitedFrom(h', i, p) {
      var j :| i <= j < |h'.input| && Visited(h'.input[j], p);
      assert Visited(h.input[j], p);
    }
  }

  /** The number of nodes of a tree. */
  function Size(h: History): nat
    decreases h, 1
  {
    1 + SizeFrom(h, 0)
  }

  /** The number of nodes under the children from position i on. */
  function SizeFrom(h: History, i: nat): nat
    requires i <= |h.input|
    decreases h, 0, |h.input| - i
  {
    if i == |h.input| then 0 else Size(h.input[i]) + SizeFrom(h, i + 1)
  }

  /** Replacing one child changes the count by the difference in size. */
  lemma {:induction false} SizeFromUpdate(h: History, i: nat, j: nat, x: History)
    requires i <= j < |h.input|
    ensures SizeFrom(h.(input := h.input[j := x]), i) == SizeFrom(h, i) - Size(h.input[j]) + Size(x)
    decreases |h.input| - i
  {
    var h' := h.(input := h.input[j := x]);
    if j == i {
      SizeFromSame(h, h', i + 1);
    } else {
      SizeFromUpdate(h, i + 1, j, x);
    }
  }

  /** Trees whose children agree from position i on count as many nodes
      there. */
  lemma {:induction false} SizeFromSame(h: History, h': History, i: nat)
    requires i <= |h.input| == |h'.input|
    requires forall j :: i <= j < |h.input| ==> h.input[j] == h'.input[j]
    ensures SizeFrom(h, i) == SizeFrom(h', i)
    decreases |h.input| - i
  {
    if i < |h.input| {
      SizeFromSame(h, h', i + 1);
    }
  }

  /** `add_child` adds the nodes of the child. */
  lemma {:induction false} SizeWithChild(h: History, c: History, i: nat)
    requires i <= |h.input|
    ensures SizeFrom(WithChild(h, c), i) == SizeFrom(h, i) + Size(c)
    decreases |h.input| - i
  {
    var h' := WithChild(h, c);
    if i < |h.input| {
      SizeWithChild(h, c, i + 1);
    } else {
      assert h'.input[i] == c;
    }
  }

  /** `save` adds the nodes of the child exactly once when some node holds
      curr, and none otherwise: no other node gains a child. */
  lemma {:induction false} SavedSize(h: History, c: History, curr: Puzzle)
    ensures Size(Saved(h, c, curr).0) == Size(h) + (if Visited(h, curr) then Size(c) else 0)
    decreases h, 1
  {
    if h.state == curr {
      SizeWithChild(h, c, 0);
    } else {
      SavedFromSize(h, 0, c, curr);
    }
  }

  lemma {:induction false} SavedFromSize(h: History, i: nat, c: History, curr: Puzzle)
    requires i <= |h.input|
    ensures Size(SavedFrom(h, i, c, curr).0) == Size(h) + (if VisitedFrom(h, i, curr) then Size(c) else 0)
    decreases h, 0, |h.input| - i
  {
    if i < |h.input| {
      var s := h.input[i];
      VisitedFromStep(h, i, curr);
      if s.state == curr {
        SizeFromUpdate(h, 0, i, WithChild(s, c));
        SizeWithChild(s, c, 0);
      } else {
        SavedSize(s, c, curr);
        SavedFinds(s, c, curr);
        if Saved(s, c, curr).1 {
          SizeFromUpdate(h, 0, i, Saved(s, c, curr).0);
        } else {
          SavedFromSize(h, i + 1, c, curr);
        }
      }
    }
  }

  // ---------------------------------------------------------------------
  // The class StateTree
  // ---------------------------------------------------------------------

  ghost function Histories(ts: seq<StateTree>): (hs: seq<History>)
    reads ts
    ensures |hs| == |ts| && forall i :: 0 <= i < |ts| ==> hs[i] == ts[i].model
  {
    if ts == [] then [] else [ts[0].model] + Histories(ts[1..])
  }

  /** A node of the state tree. Its state, position, parent and command
      are set once; `input` grows by `add_child`. `model` is the value the
      node stands for and `Repr` the objects it is made of. */
  class StateTree {
    const state: Puzzle
    var input: seq<StateTree>
    const tup: Index
    const prevState: Option<Puzzle>
    const prevIndex: Option<Index>
    const command: Option<string>
    ghost var model: History
    ghost var Repr: set<object>

    ghost predicate Valid()
      reads this, Repr
      decreases Repr
    {
      this in Repr &&
      model == Visit(state, tup, prevState, prevIndex, command, model.input) && |model.input| == |input| &&
      (forall i :: 0 <= i < |input| ==>
        input[i] in Repr && input[i].Repr <= Repr && this !in input[i].Repr &&
        input[i].Valid() && input[i].model == model.input[i]) &&
      (forall i, j :: 0 <= i < |input| && 0 <= j < |input| && i != j ==> input[i].Repr !! input[j].Repr)
    }

    /** `StateTree(state, tup, prev_state, prev_index, command)`: a node
        with no children. */
    constructor(state: Puzzle, tup: Index, prevState: Option<Puzzle>, prevIndex: Option<Index>, command: Option<string>)
      ensures Valid() && fresh(Repr)
      ensures this.state == state && this.tup == tup && this.prevState == prevState
      ensures this.prevIndex == prevIndex && this.command == command && input == []
      ensures model == Visit(state, tup, prevState, prevIndex, command, [])
    {
      this.state := state;
      this.tup := tup;
      this.prevState := prevState;
      this.prevIndex := prevIndex;
      this.command := command;
      input := [];
      model := Visit(state, tup, prevState, prevIndex, command, []);
      Repr := {this};
    }

    /** `StateTree(state)` with the default arguments: position (0, 0), no
        parent and no command. */
    constructor Root(state: Puzzle)
      ensures Valid() && fresh(Repr)
      ensures this.state == state && tup == (0, 0) && prevState == None && prevIndex == None
      ensures command == None && input == []
      ensures model == Visit(state, (0, 0), None, None, None, [])
    {
      this.state := state;
      tup := (0, 0);
      prevState := None;
      prevIndex := None;
      command := None;
      input := [];
      model := Visit(state, (0, 0), None, None, None, []);
      Repr := {this};
    }

    /** `add_child(child)`: the child appended to `input`; nothing else of
        the node changes. */
    method AddChild(child: StateTree)
      requires Valid() && child.Valid() && child.Repr !! Repr
      modifies this
      ensures Valid()
      ensures input == old(input) + [child]
      ensures model == WithChild(old(model), old(child.model))
      ensures Repr == old(Repr) + old(child.Repr)
    {
      ghost var before := input;
      input := input + [child];
      model := WithChild(model, child.model);
      Repr := Repr + child.Repr;
      forall i | 0 <= i < |input|
        ensures input[i].Valid() && input[i].model == model.input[i]
      {
        if i < |before| {
          assert input[i] == before[i];
        }
      }
    }

    /** `obj in self`: the loop looks at every child, with no early exit. */
    method Contains(obj: StateTree) returns (isFound: bool)
      requires Valid()
      ensures isFound == Visited(model, obj.state)
      decreases Repr
    {
      isFound := false;
      if state == obj.state {
        isFound := true;
      } else {
        var i := 0;
        while i < |input|
          invariant 0 <= i <= |input|
          invariant isFound == exists j :: 0 <= j < i && Visited(model.input[j], obj.state)
        {
          var b := input[i].Contains(obj);
          if b {
            isFound := true;
          }
          i := i + 1;
        }
      }
    }

    /** `save(child, curr)`: the child is added under the first node, in
        preorder, that holds curr, and True returned; with no such node the
        tree is unchanged and False returned. */
    method Save(child: StateTree, curr: Puzzle) returns (b: bool)
      requires Valid() && child.Valid() && child.Repr !! Repr
      modifies Repr
      ensures Valid()
      ensures (model, b) == Saved(old(model), old(child.model), curr)
      ensures Repr == if b then old(Repr) + old(child.Repr) else old(Repr)
      decreases Repr, 2
    {
      if state == curr {
        AddChild(child);
        return true;
      }
      var i := 0;
      while i < |input|
        invariant 0 <= i <= |input|
        invariant Valid() && model == old(model) && Repr == old(Repr) && input == old(input)
        invariant child.Valid() && child.model == old(child.model) && child.Repr !! Repr
        invariant Saved(old(model), old(child.model), curr) == SavedFrom(model, i, child.model, curr)
      {
        SavedFinds(model.input[i], child.model, curr);
        b := SaveUnder(i, child, curr);
        if b {
          return;
        }
        i := i + 1;
      }
      return false;
    }

    /** One turn of the loop of `save`, on child i: add the child to it when
        it holds curr, else ask it to save the child below it. */
    method SaveUnder(i: nat, child: StateTree, curr: Puzzle) returns (b: bool)
      requires Valid() && i < |input| && child.Valid() && child.Repr !! Repr
      modifies Repr
      ensures Valid() && input == old(input)
      ensures var s := old(model.input[i]);
        var s' := if s.state == curr then WithChild(s, old(child.model)) else Saved(s, old(child.model), curr).0;
        b == (s.state == curr || Saved(s, old(child.model), curr).1) &&
        model == old(model).(input := old(model.input)[i := s'])
      ensures Repr == if b then old(Repr) + old(child.Repr) else old(Repr)
      decreases Repr, 1
    {
      if input[i].state == curr {
        AttachUnder(i, child);
        b := true;
      } else {
        b := SaveBelow(i, child, curr);
      }
    }

    /** `state_obj.add_child(child)` on child i. */
    method AttachUnder(i: nat, child: StateTree)
      requires Valid() && i < |input| && child.Valid() && child.Repr !! Repr
      modifies Repr
      ensures Valid() && input == old(input)
      ensures model == old(model).(input := old(model.input)[i := WithChild(old(model.input[i]), old(child.model))])
      ensures Repr == old(Repr) + old(child.Repr)
    {
      var s := input[i];
      s.AddChild(child);
      model := model.(input := model.input[i := s.model]);
      Repr := Repr + s.Repr;
      forall k | 0 <= k < |input| && k != i
        ensures input[k].Valid() && input[k].Repr == old(input[k].Repr)
      {
        assert old(input[k].Repr !! s.Repr);
      }
    }

    /** `state_obj.save(child, curr)` on child i. */
    method SaveBelow(i: nat, child: StateTree, curr: Puzzle) returns (b: bool)
      requires Valid() && i < |input| && child.Valid() && child.Repr !! Repr
      modifies Repr
      ensures Valid() && input == old(input)
      ensures var r := Saved(old(model.input[i]), old(child.model), curr);
        b == r.1 && model == old(model).(input := old(model.input)[i := r.0])
      ensures Repr == if b then old(Repr) + old(child.Repr) else old(Repr)
      decreases Repr, 0
    {
      var s := input[i];
      b := s.Save(child, curr);
      model := model.(input := model.input[i := s.model]);
      Repr := Repr + s.Repr;
      forall k | 0 <= k < |input| && k != i
        ensures input[k].Valid() && input[k].Repr == old(input[k].Repr)
      {
        assert old(input[k].Repr !! s.Repr);
      }
    }

    /** `get_prev(curr)`, which asks a child that finds curr below it a
        second time for the answer. */
    method GetPrev(curr: Puzzle) returns (r: Option<(Option<Puzzle>, Option<Index>)>)
      requires Valid()
      ensures r == PrevOf(model, curr)
      decreases Repr
    {
      if state == curr {
        return Some((prevState, prevIndex));
      }
      var i := 0;
      while i < |input|
        invariant 0 <= i <= |input|
        invariant PrevOf(model, curr) == PrevFrom(model, i, curr)
      {
        var sub := input[i];
        if sub.state == curr {
          return Some((sub.prevState, sub.prevIndex));
        }
        var first := sub.GetPrev(curr);
        if first.Some? {
          var res := sub.GetPrev(curr);
          return res;
        }
        i := i + 1;
      }
      return None;
    }

    /** `get_attempt(curr)`: the very `input` list of the first node that
        holds curr, with True; `[]` with False when there is none. */
    method GetAttempt(curr: Puzzle) returns (items: seq<StateTree>, found: bool)
      requires Valid()
      ensures found == AttemptsOf(model, curr).Some?
      ensures found ==> Histories(items) == AttemptsOf(model, curr).value
      ensures !found ==> items == []
      ensures forall k :: 0 <= k < |items| ==> items[k] in Repr && items[k].Valid()
      decreases Repr
    {
      if state == curr {
        return input, true;
      }
      var i := 0;
      while i < |input|
        invariant 0 <= i <= |input|
        invariant AttemptsOf(model, curr) == AttemptsFrom(model, i, curr)
      {
        var sub := input[i];
        if sub.state == curr {
          return sub.input, true;
        }
        var _, first := sub.GetAttempt(curr);
        if first {
          items, found := sub.GetAttempt(curr);
          return;
        }
        i := i + 1;
      }
      return [], false;
    }
  }
}
