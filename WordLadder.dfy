/** The word ladder puzzle of PuzzleGames/word_ladder_puzzle.py.

    A state is a start word, a target word and the ladder of words entered so
    far; a move appends one dictionary word that differs from the last word
    in one letter. The dictionary, which the source reads from a file in its
    constructor, is the parameter `words` of every operation that needs it;
    it is not part of the state, just as `__eq__` ignores it. */
module WordLadder {
  import opened Common
  import opened Strings

  /** CHARS: the lower-case alphabet. */
  const Chars: string := "abcdefghijklmnopqrstuvwxyz"

  datatype State = State(start: string, target: string, ladder: seq<string>)

  /** The constructor's `_narrow_words`: the dictionary words as long as the
      start word, in dictionary order. */
  function Narrow(words: seq<string>, start: string): (r: seq<string>)
    ensures forall w :: w in r <==> w in words && |w| == |start|
  {
    if words == [] then []
    else (if |words[0]| == |start| then [words[0]] else []) + Narrow(words[1..], start)
  }

  lemma {:induction false} NarrowAppend(ws: seq<string>, w: string, start: string)
    ensures Narrow(ws + [w], start) == Narrow(ws, start) + (if |w| == |start| then [w] else [])
    decreases |ws|
  {
    if ws == [] {
      assert [] + [w] == [w];
      assert [w][1..] == [];
    } else {
      assert (ws + [w])[1..] == ws[1..] + [w];
      NarrowAppend(ws[1..], w, start);
    }
  }

  /** The loop of the constructor that builds `_narrow_words`. */
  method NarrowWords(words: seq<string>, start: string) returns (narrow: seq<string>)
    ensures narrow == Narrow(words, start)
  {
    narrow := [];
    var k := 0;
    while k < |words|
      invariant 0 <= k <= |words|
      invariant narrow == Narrow(words[..k], start)
    {
      assert words[..k + 1] == words[..k] + [words[k]];
      NarrowAppend(words[..k], words[k], start);
      if |words[k]| == |start| {
        narrow := narrow + [words[k]];
      }
      k := k + 1;
    }
    assert words[..k] == words;
  }

  // ---------------------------------------------------------------------
  // _diffone
  // ---------------------------------------------------------------------

  /** How many of the first n pairs of `zip(a, b)` differ. */
  function CountDiff(a: string, b: string, n: nat): nat
    requires n <= |a| && n <= |b|
  {
    if n == 0 then 0 else CountDiff(a, b, n - 1) + (if a[n - 1] != b[n - 1] then 1 else 0)
  }

  function Shorter(a: string, b: string): (n: nat)
    ensures n <= |a| && n <= |b| && (n == |a| || n == |b|)
  {
    if |a| < |b| then |a| else |b|
  }

  /** `_diffone`: the words differ, and at most one pair of `zip(a, b)` does. */
  predicate DiffOne(a: string, b: string)
  {
    a != b && CountDiff(a, b, Shorter(a, b)) <= 1
  }

  /** `_diffone` as the source computes it: a scan of the zipped pairs with
      the flag `one_diff`, stopping at the second difference. */
  method DiffOneScan(a: string, b: string) returns (r: bool)
    ensures r == DiffOne(a, b)
  {
    if a == b {
      return false;
    }
    var oneDiff := false;
    var n := Shorter(a, b);
    var i := 0;
    while i < n
      invariant 0 <= i <= n
      invariant CountDiff(a, b, i) <= 1
      invariant oneDiff <==> CountDiff(a, b, i) == 1
    {
      if a[i] != b[i] {
        if oneDiff {
          CountDiffGrows(a, b, i + 1, n);
          return false;
        }
        oneDiff := true;
      }
      i := i + 1;
    }
    return true;
  }

  lemma {:induction false} CountDiffGrows(a: string, b: string, i: nat, n: nat)
    requires i <= n <= |a| && n <= |b|
    ensures CountDiff(a, b, i) <= CountDiff(a, b, n)
    decreases n - i
  {
    if i < n {
      CountDiffGrows(a, b, i, n - 1);
    }
  }

  lemma {:induction false} CountDiffZero(a: string, b: string, n: nat)
    requires n <= |a| && n <= |b|
    ensures CountDiff(a, b, n) == 0 <==> forall j :: 0 <= j < n ==> a[j] == b[j]
    decreases n
  {
    if n > 0 {
      CountDiffZero(a, b, n - 1);
    }
  }

  lemma {:induction false} CountDiffOne(a: string, b: string, n: nat)
    requires n <= |a| && n <= |b|
    ensures CountDiff(a, b, n) == 1 <==>
              exists i :: 0 <= i < n && a[i] != b[i] && forall j :: 0 <= j < n && j != i ==> a[j] == b[j]
    decreases n
  {
    if n > 0 {
      CountDiffOne(a, b, n - 1);
      CountDiffZero(a, b, n - 1);
      if CountDiff(a, b, n) == 1 {
        if a[n - 1] != b[n - 1] {
          assert forall j :: 0 <= j < n && j != n - 1 ==> a[j] == b[j];
        } else {
          var i :| 0 <= i < n - 1 && a[i] != b[i] && forall j :: 0 <= j < n - 1 && j != i ==> a[j] == b[j];
          assert forall j :: 0 <= j < n && j != i ==> a[j] == b[j];
        }
      }
      if exists i :: 0 <= i < n && a[i] != b[i] && forall j :: 0 <= j < n && j != i ==> a[j] == b[j] {
        var i :| 0 <= i < n && a[i] != b[i] && forall j :: 0 <= j < n && j != i ==> a[j] == b[j];
        if i == n - 1 {
          assert forall j :: 0 <= j < n - 1 ==> a[j] == b[j];
        } else {
          assert forall j :: 0 <= j < n - 1 && j != i ==> a[j] == b[j];
        }
      }
    }
  }

  /** Two words differ at exactly one index. */
  predicate OneIndexApart(a: string, b: string)
  {
    |a| == |b| && exists i :: 0 <= i < |a| && a[i] != b[i] && forall j :: 0 <= j < |a| && j != i ==> a[j] == b[j]
  }

  /** For words of one length `_diffone` holds exactly when they differ at
      exactly one index. */
  lemma DiffOneSameLength(a: string, b: string)
    requires |a| == |b|
    ensures DiffOne(a, b) <==> OneIndexApart(a, b)
  {
    CountDiffZero(a, b, |a|);
    CountDiffOne(a, b, |a|);
    if a != b {
      assert !(forall j :: 0 <= j < |a| ==> a[j] == b[j]);
    }
  }

  lemma {:induction false} CountDiffSymmetric(a: string, b: string, n: nat)
    requires n <= |a| && n <= |b|
    ensures CountDiff(a, b, n) == CountDiff(b, a, n)
    decreases n
  {
    if n > 0 {
      CountDiffSymmetric(a, b, n - 1);
    }
  }

  lemma DiffOneSymmetric(a: string, b: string)
    ensures DiffOne(a, b) <==> DiffOne(b, a)
  {
    CountDiffSymmetric(a, b, Shorter(a, b));
  }

  /** Only the common prefix is compared: a word and a longer word that
      extends it are one apart. */
  lemma DiffOnePrefix()
    ensures DiffOne("ab", "abc")
  {
    var a, b := "ab", "abc";
    assert Shorter(a, b) == 2;
    assert a[0] == b[0] && a[1] == b[1];
  }

  lemma DiffOneExamples()
    ensures DiffOne("care", "cane") && !DiffOne("care", "care")
    ensures DiffOne("care", "cure") && !DiffOne("care", "dire")
  {
    var care, cane, cure, dire := "care", "cane", "cure", "dire";
    assert care != cane && care[2] != cane[2];
    assert CountDiff(care, cane, 4) == 1;
    assert care != cure && care[1] != cure[1];
    assert CountDiff(care, cure, 4) == 1;
    assert care[0] != dire[0] && care[1] != dire[1];
    assert CountDiff(care, dire, 4) == 2;
  }

  // ---------------------------------------------------------------------
  // _possible_words
  // ---------------------------------------------------------------------

  /** `word[:i] + word[i].replace(word[i], ch, 1) + word[i+1:]`. */
  function Variant(w: string, i: nat, ch: char): (v: string)
    requires i < |w|
    ensures |v| == |w| && v[i] == ch && forall j :: 0 <= j < |w| && j != i ==> v[j] == w[j]
  {
    w[..i] + [ch] + w[i + 1..]
  }

  /** The variants of w at index i, with the letters of CHARS in order: one
      pass of the inner loop of `_possible_words`. */
  function Row(w: string, i: nat): (row: seq<string>)
    requires i < |w|
    ensures |row| == |Chars|
    ensures forall k :: 0 <= k < |Chars| ==> row[k] == Variant(w, i, Chars[k])
  {
    seq(|Chars|, k requires 0 <= k < |Chars| => Variant(w, i, Chars[k]))
  }

  /** The rows for the indices below n, in order. */
  function Rows(w: string, n: nat): seq<string>
    requires n <= |w|
  {
    if n == 0 then [] else Rows(w, n - 1) + Row(w, n - 1)
  }

  /** All `Variant(w, i, ch)` for i in `range(len(w))` and ch in CHARS, in
      the order the two loops of `_possible_words` produce them. */
  function AllVariants(w: string): seq<string>
  {
    Rows(w, |w|)
  }

  /** v is w with the letter at index i replaced by one of CHARS. */
  predicate VariantAt(v: string, w: string, i: nat)
  {
    i < |w| && |v| == |w| && v[i] in Chars && v == Variant(w, i, v[i])
  }

  lemma RowMembers(w: string, i: nat, v: string)
    requires i < |w|
    ensures v in Row(w, i) <==> VariantAt(v, w, i)
  {
    if v in Row(w, i) {
      var k :| 0 <= k < |Chars| && Row(w, i)[k] == v;
      assert v[i] == Chars[k];
    }
    if VariantAt(v, w, i) {
      var k :| 0 <= k < |Chars| && Chars[k] == v[i];
      assert Row(w, i)[k] == v;
    }
  }

  lemma {:induction false} RowsMembers(w: string, n: nat, v: string)
    requires n <= |w|
    ensures v in Rows(w, n) <==> exists i :: 0 <= i < n && VariantAt(v, w, i)
    decreases n
  {
    if n > 0 {
      RowsMembers(w, n - 1, v);
      RowMembers(w, n - 1, v);
    }
  }

  /** The variants of w are the words of its length that agree with it
      except perhaps at one index, where they hold a letter of CHARS. */
  lemma AllVariantsMembers(w: string, v: string)
    ensures v in AllVariants(w) <==> exists i :: 0 <= i < |w| && VariantAt(v, w, i)
  {
    RowsMembers(w, |w|, v);
  }

  /** The words not yet used: neither in the ladder nor the start word. */
  function KeepUnused(vs: seq<string>, st: State): (r: seq<string>)
    ensures forall v :: v in r <==> v in vs && v !in st.ladder && v != st.start
  {
    if vs == [] then []
    else (if vs[0] !in st.ladder && vs[0] != st.start then [vs[0]] else []) + KeepUnused(vs[1..], st)
  }

  lemma {:induction false} KeepUnusedAppend(vs: seq<string>, v: string, st: State)
    ensures KeepUnused(vs + [v], st) == KeepUnused(vs, st) + (if v !in st.ladder && v != st.start then [v] else [])
    decreases |vs|
  {
    if vs == [] {
      assert [] + [v] == [v];
      assert [v][1..] == [];
    } else {
      assert (vs + [v])[1..] == vs[1..] + [v];
      KeepUnusedAppend(vs[1..], v, st);
    }
  }

  /** `_possible_words(w)`: every variant of w that is not yet used. */
  function PossibleWords(st: State, w: string): seq<string>
  {
    KeepUnused(AllVariants(w), st)
  }

  /** Every word `_possible_words(w)` yields has the length of w, is w itself
      or one index apart from it, is not in the ladder and is not the start
      word. */
  lemma PossibleWordsShape(st: State, w: string, v: string)
    requires v in PossibleWords(st, w)
    ensures |v| == |w| && v !in st.ladder && v != st.start
    ensures v == w || OneIndexApart(v, w)
  {
    AllVariantsMembers(w, v);
    var i :| 0 <= i < |w| && VariantAt(v, w, i);
    if v[i] == w[i] {
      assert forall j :: 0 <= j < |w| ==> v[j] == w[j];
      assert v == w;
    } else {
      assert OneIndexApart(v, w);
    }
  }

  /** The inner loop of `_possible_words`, for one index i. */
  method PossibleWordsAt(st: State, w: string, i: nat, prefix: seq<string>, ghost done: seq<string>)
    returns (result: seq<string>)
    requires i < |w| && prefix == KeepUnused(done, st)
    ensures result == KeepUnused(done + Row(w, i), st)
  {
    ghost var row := Row(w, i);
    result := prefix;
    var k := 0;
    assert done + row[..0] == done;
    while k < |Chars|
      invariant 0 <= k <= |Chars|
      invariant result == KeepUnused(done + row[..k], st)
    {
      var v := w[..i] + [Chars[k]] + w[i + 1..];
      assert done + row[..k + 1] == (done + row[..k]) + [v];
      KeepUnusedAppend(done + row[..k], v, st);
      if v !in st.ladder && v != st.start {
        result := result + [v];
      }
      k := k + 1;
    }
    assert row[..k] == row;
  }

  /** The two loops of `_possible_words`. */
  method PossibleWordsLoop(st: State, w: string) returns (result: seq<string>)
    ensures result == PossibleWords(st, w)
  {
    result := [];
    var i := 0;
    while i < |w|
      invariant 0 <= i <= |w|
      invariant result == KeepUnused(Rows(w, i), st)
    {
      result := PossibleWordsAt(st, w, i, result, Rows(w, i));
      i := i + 1;
    }
  }

  // ---------------------------------------------------------------------
  // extensions, move and is_valid
  // ---------------------------------------------------------------------

  /** The word a move has to be one letter away from: the last word of the
      ladder, or the start word when the ladder is empty. */
  function Tail(st: State): string
  {
    if st.ladder == [] then st.start else st.ladder[|st.ladder| - 1]
  }

  /** `_extend` and the copy at the end of `move`: the ladder with w
      appended. */
  function Extend(st: State, w: string): (child: State)
    ensures child.start == st.start && child.target == st.target
    ensures child.ladder == st.ladder + [w] && Tail(child) == w
  {
    State(st.start, st.target, st.ladder + [w])
  }

  function KeepExtending(vs: seq<string>, narrow: seq<string>, tail: string): (r: seq<string>)
    ensures forall v :: v in r <==> v in vs && v in narrow && DiffOne(v, tail)
  {
    if vs == [] then []
    else (if vs[0] in narrow && DiffOne(vs[0], tail) then [vs[0]] else []) + KeepExtending(vs[1..], narrow, tail)
  }

  /** v is one of the words `extensions` appends: in
      `set(_narrow_words) & set(_possible_words(tail))`, and accepted by
      `_diffone`. */
  predicate Extending(words: seq<string>, st: State, v: string)
  {
    v in Narrow(words, st.start) && v in PossibleWords(st, Tail(st)) && DiffOne(v, Tail(st))
  }

  /** The words `extensions` appends, after `possible.sort()`: each
      Extending word once, in ascending order. */
  function NextWords(words: seq<string>, st: State): (r: seq<string>)
    ensures StrictlySorted(r)
    ensures forall v :: v in r <==> Extending(words, st, v)
  {
    SortDistinct(KeepExtending(PossibleWords(st, Tail(st)), Narrow(words, st.start), Tail(st)))
  }

  /** The order in which the set yields its members does not matter: any
      ascending list of those words is the one `extensions` builds. */
  lemma NextWordsUnique(words: seq<string>, st: State, other: seq<string>)
    requires StrictlySorted(other)
    requires forall v :: v in other <==> Extending(words, st, v)
    ensures other == NextWords(words, st)
  {
    SortedUnique(other, NextWords(words, st));
  }

  /** `extensions`: one child per word of NextWords. */
  function Extensions(words: seq<string>, st: State): seq<State>
  {
    ExtendAll(st, NextWords(words, st))
  }

  function ExtendAll(st: State, ws: seq<string>): (children: seq<State>)
    ensures |children| == |ws|
  {
    seq(|ws|, k requires 0 <= k < |ws| => Extend(st, ws[k]))
  }

  /** The checks `move` and `is_valid` share. */
  predicate IsValid(words: seq<string>, st: State, m: string)
  {
    && m in Narrow(words, st.start)
    && m !in st.ladder
    && m != st.start
    && |m| == |Tail(st)|
    && DiffOne(m, Tail(st))
  }

  /** `move`: the state with m appended to the ladder, or ValueError. */
  function Move(words: seq<string>, st: State, m: string): (r: Result<State>)
    ensures r.Ok? <==> IsValid(words, st, m)
    ensures r.Raise? ==> r.error == ValueError
    ensures r.Ok? ==> r.value.start == st.start && r.value.target == st.target && r.value.ladder == st.ladder + [m]
  {
    if IsValid(words, st, m) then Ok(Extend(st, m)) else Raise(ValueError)
  }

  /** The words the extensions append ascend strictly. */
  lemma ExtensionsAscending(words: seq<string>, st: State)
    ensures forall k1, k2 :: 0 <= k1 < k2 < |Extensions(words, st)| ==>
              Less(Tail(Extensions(words, st)[k1]), Tail(Extensions(words, st)[k2]))
  {
  }

  /** Each extension is what making its move gives, and that move is valid. */
  lemma ExtensionsAreMoves(words: seq<string>, st: State, child: State)
    requires child in Extensions(words, st)
    ensures IsValid(words, st, Tail(child)) && Move(words, st, Tail(child)) == Ok(child)
  {
    var next := NextWords(words, st);
    var k :| 0 <= k < |next| && child == Extend(st, next[k]);
    assert next[k] in next && Extending(words, st, next[k]);
    PossibleWordsShape(st, Tail(st), next[k]);
  }

  /** Conversely, a valid move to a word of lower-case letters is one of the
      extensions. */
  lemma MovesAreExtensions(words: seq<string>, st: State, m: string)
    requires IsValid(words, st, m)
    requires forall j :: 0 <= j < |m| ==> m[j] in Chars
    ensures Extend(st, m) in Extensions(words, st)
  {
    OneApartIsVariant(m, Tail(st));
    assert Extending(words, st, m);
    ExtendAllHas(st, NextWords(words, st), m);
  }

  /** A word of CHARS one letter from t is among the variants of t. */
  lemma OneApartIsVariant(m: string, t: string)
    requires |m| == |t| && DiffOne(m, t)
    requires forall j :: 0 <= j < |m| ==> m[j] in Chars
    ensures m in AllVariants(t)
  {
    DiffOneSameLength(m, t);
    var i :| 0 <= i < |m| && m[i] != t[i] && forall j :: 0 <= j < |m| && j != i ==> m[j] == t[j];
    assert m == Variant(t, i, m[i]);
    assert VariantAt(m, t, i);
    AllVariantsMembers(t, m);
  }

  lemma ExtendAllHas(st: State, ws: seq<string>, w: string)
    requires w in ws
    ensures Extend(st, w) in ExtendAll(st, ws)
  {
    var p :| 0 <= p < |ws| && ws[p] == w;
    assert ExtendAll(st, ws)[p] == Extend(st, w);
  }

  // ---------------------------------------------------------------------
  // __eq__ and hint_generator
  // ---------------------------------------------------------------------

  /** `__eq__`: same start, same target, ladders equal element by element. */
  predicate Equal(a: State, b: State)
  {
    a.start == b.start && a.target == b.target && |a.ladder| == |b.ladder| &&
    forall k :: 0 <= k < |a.ladder| ==> a.ladder[k] == b.ladder[k]
  }

  lemma EqualIsEquality(a: State, b: State)
    ensures Equal(a, b) <==> a == b
  {
    if Equal(a, b) {
      assert a.ladder == b.ladder;
    }
  }

  /** `hint_generator`: the word of the other ladder just past this
      ladder's end, or IndexError when there is none. */
  function Hint(st: State, other: State): (r: Result<string>)
    ensures r.Ok? <==> |st.ladder| < |other.ladder|
    ensures r.Raise? ==> r.error == IndexError
  {
    if |st.ladder| < |other.ladder| then Ok(other.ladder[|st.ladder|]) else Raise(IndexError)
  }

  /** The hint from a state to one of its extensions is a valid move, and
      making it gives that extension back. */
  lemma HintRoundTrip(words: seq<string>, st: State, child: State)
    requires child in Extensions(words, st)
    ensures Hint(st, child).Ok? && IsValid(words, st, Hint(st, child).value)
    ensures Move(words, st, Hint(st, child).value) == Ok(child)
  {
    ExtensionsAreMoves(words, st, child);
    assert child.ladder[|st.ladder|] == Tail(child);
  }

  // ---------------------------------------------------------------------
  // is_solved
  // ---------------------------------------------------------------------

  /** The word before ladder entry i. */
  function Previous(st: State, i: nat): string
    requires i < |st.ladder|
  {
    if i == 0 then st.start else st.ladder[i - 1]
  }

  /** Ladder entry i is a dictionary word one letter from the word before
      it. */
  predicate Link(words: seq<string>, st: State, i: nat)
    requires i < |st.ladder|
  {
    DiffOne(st.ladder[i], Previous(st, i)) && st.ladder[i] in Narrow(words, st.start)
  }

  /** Every ladder entry is linked to the word before it. */
  predicate Chained(words: seq<string>, st: State)
  {
    forall i :: 0 <= i < |st.ladder| ==> Link(words, st, i)
  }

  /** `is_solved`. With an empty ladder the code returns True when start and
      target are equal, and also when they are one letter apart, since no
      branch returns False then. With a non-empty ladder: chained, and the
      last entry is the target. */
  predicate IsSolved(words: seq<string>, st: State)
  {
    if st.ladder == [] then
      st.start == st.target || (|st.start| == |st.target| && DiffOne(st.start, st.target))
    else
      Chained(words, st) && st.ladder[|st.ladder| - 1] == st.target
  }

  /** The loop of `is_solved`. */
  method IsSolvedLoop(words: seq<string>, st: State) returns (solved: bool)
    ensures solved == IsSolved(words, st)
  {
    if |st.ladder| == 0 {
      if st.start != st.target {
        if |st.start| != |st.target| {
          return false;
        }
        var oneApart := DiffOneScan(st.start, st.target);
        if !oneApart {
          return false;
        }
      }
      return true;
    }
    var narrow := NarrowWords(words, st.start);
    var i := 0;
    while i < |st.ladder|
      invariant 0 <= i <= |st.ladder|
      invariant narrow == Narrow(words, st.start)
      invariant forall j :: 0 <= j < i ==> Link(words, st, j)
      invariant i == |st.ladder| ==> st.ladder[i - 1] == st.target
    {
      var oneApart;
      if i == 0 {
        oneApart := DiffOneScan(st.ladder[i], st.start);
      } else {
        oneApart := DiffOneScan(st.ladder[i], st.ladder[i - 1]);
      }
      if !oneApart {
        assert !Link(words, st, i);
        return false;
      }
      if i == |st.ladder| - 1 && st.ladder[i] != st.target {
        return false;
      }
      if st.ladder[i] !in narrow {
        assert !Link(words, st, i);
        return false;
      }
      assert Link(words, st, i);
      i := i + 1;
    }
    return true;
  }

  lemma IsSolvedExamples(words: seq<string>)
    ensures !IsSolved(words, State("mist", "mire", []))
    ensures IsSolved(words, State("mist", "mist", []))
  {
    var mist, mire := "mist", "mire";
    assert mist[2] != mire[2] && mist[3] != mire[3];
    assert CountDiff(mist, mire, 4) == 2;
  }

  /** A move keeps a chained ladder chained. */
  lemma MovePreservesChained(words: seq<string>, st: State, m: string)
    requires Chained(words, st) && Move(words, st, m).Ok?
    ensures Chained(words, Move(words, st, m).value)
  {
    var child := Move(words, st, m).value;
    forall i | 0 <= i < |child.ladder|
      ensures Link(words, child, i)
    {
      if i < |st.ladder| {
        assert Link(words, st, i);
        assert child.ladder[i] == st.ladder[i] && Previous(child, i) == Previous(st, i);
      } else {
        assert Previous(child, i) == Tail(st);
      }
    }
  }

  /** A chained ladder is solved by a move exactly when that move enters the
      target. */
  lemma SolvedByMove(words: seq<string>, st: State, m: string)
    requires Chained(words, st) && Move(words, st, m).Ok?
    ensures IsSolved(words, Move(words, st, m).value) <==> m == st.target
  {
    MovePreservesChained(words, st, m);
  }

  // ---------------------------------------------------------------------
  // The measure on which the exhaustive search terminates
  // ---------------------------------------------------------------------

  /** The dictionary words of the start word's length not yet in the ladder. */
  function Unused(words: seq<string>, st: State): set<string>
  {
    set w | w in Narrow(words, st.start) && w !in st.ladder
  }

  function Rank(words: seq<string>, st: State): nat
  {
    |Unused(words, st)|
  }

  /** A successful move uses up one dictionary word. */
  lemma MoveDecreasesRank(words: seq<string>, st: State, m: string)
    requires Move(words, st, m).Ok?
    ensures Rank(words, Move(words, st, m).value) + 1 == Rank(words, st)
  {
    var child := Move(words, st, m).value;
    assert Unused(words, child) == Unused(words, st) - {m};
  }

  lemma ExtensionsDecrease(words: seq<string>, st: State)
    ensures forall child :: child in Extensions(words, st) ==> Rank(words, child) < Rank(words, st)
  {
    forall child | child in Extensions(words, st) ensures Rank(words, child) < Rank(words, st) {
      ExtensionsAreMoves(words, st, child);
      MoveDecreasesRank(words, st, Tail(child));
    }
  }
}
