/** The grocery store of the simulation: checkout lines of three kinds, each
    a queue of customers with an open flag, the rule by which a customer
    picks a line, the checkout time of each kind, and the removal of
    customers. The three counter classes differ only in their checkout time,
    so they are one class with a `kind`. */
module Store {
  import opened Common

  datatype Kind = Cashier | Express | SelfServe

  /** A customer: a name and a number of items; never changed once made. */
  datatype Customer = Customer(name: string, items: int)

  /** The state of one line, as the store's functions see it. */
  datatype Line = Line(kind: Kind, customers: seq<Customer>, open: bool)

  /** `checkout_time(items)` of each counter class. */
  function CheckoutTime(kind: Kind, items: int): int
  {
    match kind
    case Cashier => items + 7
    case Express => items + 4
    case SelfServe => 2 * items + 1
  }

  /** The kind of the counter at position i of a store with `cashiers`
      cashiers and `express` express counters. */
  function KindAt(cashiers: nat, express: nat, i: nat): (k: Kind)
    ensures k == Cashier <==> i < cashiers
    ensures k == Express <==> cashiers <= i < cashiers + express
  {
    if i < cashiers then Cashier
    else if cashiers <= i < cashiers + express then Express
    else SelfServe
  }

  /** A line the customer with `items` items may join: open, and not an
      express line when the customer has 8 items or more. */
  predicate Eligible(l: Line, items: int)
  {
    l.open && (items < 8 || l.kind != Express)
  }

  /** Python's index into a list of length n: a negative index counts from
      the end; None is the IndexError. */
  function Resolve(index: int, n: nat): (r: Option<nat>)
    ensures r.Some? <==> -(n as int) <= index < n
    ensures r.Some? ==> r.value < n && (r.value == index || r.value == index + n)
  {
    if 0 <= index < n then Some(index)
    else if -(n as int) <= index < 0 then Some(index + n)
    else None
  }

  predicate Holds(l: Line, name: string)
  {
    exists j :: 0 <= j < |l.customers| && l.customers[j].name == name
  }

  /** The first position in cs of a customer called name. */
  function FirstIn(cs: seq<Customer>, name: string): (r: Option<nat>)
    ensures r.None? <==> forall j :: 0 <= j < |cs| ==> cs[j].name != name
    ensures r.Some? ==>
      r.value < |cs| && cs[r.value].name == name &&
      (forall j :: 0 <= j < r.value ==> cs[j].name != name)
  {
    if cs == [] then None
    else if cs[0].name == name then Some(0)
    else
      match FirstIn(cs[1..], name)
      case None => None
      case Some(j) => Some(j + 1)
  }

  /** The first match of the scans over lines and then positions: the first
      line holding name, and the first position of name in it. */
  function FirstMatch(ls: seq<Line>, name: string): (r: Option<(nat, nat)>)
    ensures r.None? <==> forall i :: 0 <= i < |ls| ==> !Holds(ls[i], name)
    ensures r.Some? ==> var (i, j) := r.value;
      i < |ls| && j < |ls[i].customers| && ls[i].customers[j].name == name &&
      (forall k :: 0 <= k < i ==> !Holds(ls[k], name)) &&
      (forall k :: 0 <= k < j ==> ls[i].customers[k].name != name)
  {
    if ls == [] then None
    else
      match FirstIn(ls[0].customers, name)
      case Some(j) => Some((0, j))
      case None =>
        match FirstMatch(ls[1..], name)
        case None => None
        case Some(m) => Some((m.0 + 1, m.1))
  }

  // ---------------------------------------------------------------------
  // leave_line on one line
  // ---------------------------------------------------------------------

  /** The inner loop of `leave_line` from position j, over the n positions
      fixed before the loop, on the list cs that each pop shortens.
      False is the IndexError of reading past the end of the shorter
      list. */
  function Pops(cs: seq<Customer>, name: string, j: nat, n: nat): (seq<Customer>, bool)
    requires j <= n
    decreases n - j
  {
    if j == n then (cs, true)
    else if j >= |cs| then (cs, false)
    else if cs[j].name == name then Pops(cs[..j] + cs[j + 1..], name, j + 1, n)
    else Pops(cs, name, j + 1, n)
  }

  /** `leave_line` on one line. */
  function LeaveLineFrom(cs: seq<Customer>, name: string): (seq<Customer>, bool)
  {
    Pops(cs, name, 0, |cs|)
  }

  /** Once the list is shorter than the fixed range, the loop reads past its
      end before the range runs out. */
  lemma {:induction false} PopsPastEnd(cs: seq<Customer>, name: string, j: nat, n: nat)
    requires j < n && |cs| < n
    ensures !Pops(cs, name, j, n).1
    decreases n - j
  {
    if j < |cs| {
      if cs[j].name == name {
        PopsPastEnd(cs[..j] + cs[j + 1..], name, j + 1, n);
      } else {
        PopsPastEnd(cs, name, j + 1, n);
      }
    }
  }

  /** Positions without a match are passed over. */
  lemma {:induction false} PopsSkip(cs: seq<Customer>, name: string, j: nat, p: nat)
    requires j <= p <= |cs|
    requires forall k :: j <= k < p ==> cs[k].name != name
    ensures Pops(cs, name, j, |cs|) == Pops(cs, name, p, |cs|)
    decreases p - j
  {
    if j < p {
      PopsSkip(cs, name, j + 1, p);
    }
  }

  /** `leave_line` raises IndexError on a line where name is found before
      the last position. */
  lemma LeaveLineFails(cs: seq<Customer>, name: string)
    requires exists j :: 0 <= j < |cs| - 1 && cs[j].name == name
    ensures !LeaveLineFrom(cs, name).1
  {
    var m := FirstIn(cs, name).value;
    PopsSkip(cs, name, 0, m);
    PopsPastEnd(cs[..m] + cs[m + 1..], name, m + 1, |cs|);
  }

  /** Where name is found at most at the last position, `leave_line` goes
      through, and removes that last customer if it matches. */
  lemma LeaveLineLast(cs: seq<Customer>, name: string)
    requires forall j :: 0 <= j < |cs| - 1 ==> cs[j].name != name
    ensures LeaveLineFrom(cs, name) ==
      (if |cs| > 0 && cs[|cs| - 1].name == name then cs[..|cs| - 1] else cs, true)
  {
    if |cs| > 0 {
      PopsSkip(cs, name, 0, |cs| - 1);
      var n := |cs|;
      assert cs[..n - 1] + cs[n..] == cs[..n - 1];
    }
  }

  // ---------------------------------------------------------------------
  // The counters
  // ---------------------------------------------------------------------

  /** A checkout counter: its kind, its list of customers (the front one is
      being served) and whether it is open. */
  class Counter {
    const kind: Kind
    var customers: seq<Customer>
    var open: bool

    /** A new counter: open, with nobody in line. */
    constructor(kind: Kind)
      ensures this.kind == kind && customers == [] && open
    {
      this.kind := kind;
      customers := [];
      open := true;
    }

    /** `add_customer(name, items)`: a new customer at the end of the
        line. */
    method AddCustomer(name: string, items: int)
      modifies this
      ensures customers == old(customers) + [Customer(name, items)] && open == old(open)
    {
      customers := customers + [Customer(name, items)];
    }

    /** `remove_customer(index)`: `pop(index)`, which raises IndexError when
        the index is out of range. */
    method RemoveCustomer(index: int) returns (r: Result<()>)
      modifies this
      ensures open == old(open)
      ensures match Resolve(index, |old(customers)|)
        case None => r == Raise(IndexError) && customers == old(customers)
        case Some(k) => r == Ok(()) && customers == old(customers[..k] + customers[k + 1..])
    {
      match Resolve(index, |customers|)
      case None =>
        r := Raise(IndexError);
      case Some(k) =>
        customers := customers[..k] + customers[k + 1..];
        r := Ok(());
    }
  }

  ghost function LinesOf(cs: seq<Counter>): (ls: seq<Line>)
    reads cs
    ensures |ls| == |cs|
    ensures forall i :: 0 <= i < |cs| ==> ls[i] == Line(cs[i].kind, cs[i].customers, cs[i].open)
  {
    if cs == [] then [] else [Line(cs[0].kind, cs[0].customers, cs[0].open)] + LinesOf(cs[1..])
  }


  /** A position found by scanning lines and then positions in order is
      the first match. */
  lemma FirstMatchAt(ls: seq<Line>, name: string, i: nat, j: nat)
    requires i < |ls| && j < |ls[i].customers| && ls[i].customers[j].name == name
    requires forall k :: 0 <= k < i ==> !Holds(ls[k], name)
    requires forall q :: 0 <= q < j ==> ls[i].customers[q].name != name
    ensures FirstMatch(ls, name) == Some((i, j))
  {
    assert Holds(ls[i], name);
  }

  /** A line after `leave_line`'s inner loop has gone through it. */
  function AfterLeave(l: Line, name: string): Line
  {
    l.(customers := LeaveLineFrom(l.customers, name).0)
  }

  /** The lines with the first i of them through `leave_line`'s inner
      loop. */
  function LeftUpTo(ls: seq<Line>, name: string, i: nat): (r: seq<Line>)
    ensures |r| == |ls|
    ensures forall k :: 0 <= k < |ls| ==> r[k] == if k < i then AfterLeave(ls[k], name) else ls[k]
  {
    seq(|ls|, k requires 0 <= k < |ls| => if k < i then AfterLeave(ls[k], name) else ls[k])
  }

  /** The line `join_line` picks for a customer with `items` items, stated
      outright: c is the first eligible line strictly shorter than the
      capacity and than every eligible line before it, which is the first
      of the shortest eligible lines when that is below capacity; otherwise
      line 0. */
  ghost predicate JoinChoice(ls: seq<Line>, items: int, capacity: int, c: nat)
  {
    ((exists i :: 0 <= i < |ls| && Eligible(ls[i], items) && |ls[i].customers| < capacity) ==>
      c < |ls| && Eligible(ls[c], items) && |ls[c].customers| < capacity &&
      (forall i :: 0 <= i < |ls| && Eligible(ls[i], items) ==> |ls[c].customers| <= |ls[i].customers|) &&
      (forall i :: 0 <= i < c && Eligible(ls[i], items) ==> |ls[c].customers| < |ls[i].customers|)) &&
    ((forall i :: 0 <= i < |ls| && Eligible(ls[i], items) ==> |ls[i].customers| >= capacity) ==> c == 0)
  }

  /** At most one line satisfies the choice: the rule decides the line. */
  lemma JoinChoiceUnique(ls: seq<Line>, items: int, capacity: int, c: nat, d: nat)
    requires JoinChoice(ls, items, capacity, c) && JoinChoice(ls, items, capacity, d)
    ensures c == d
  {
  }

  // ---------------------------------------------------------------------
  // The store
  // ---------------------------------------------------------------------

  /** A grocery store: the capacity of every line and its counters, in the
      order of the configuration. The counters are distinct objects. */
  class GroceryStore {
    const capacity: int
    const lines: seq<Counter>

    ghost predicate Valid()
      reads this
    {
      forall i, j :: 0 <= i < |lines| && 0 <= j < |lines| && i != j ==> lines[i] != lines[j]
    }

    /** The state of every line. */
    ghost function Lines(): (ls: seq<Line>)
      reads this, lines
      ensures |ls| == |lines|
    {
      LinesOf(lines)
    }

    /** `GroceryStore(filename)` with the configuration's counts and
        capacity: the cashiers first, then the express counters, then the
        self-serve counters, all open and empty. */
    constructor(cashierCount: nat, expressCount: nat, selfServeCount: nat, lineCapacity: int)
      ensures Valid() && capacity == lineCapacity
      ensures |lines| == cashierCount + expressCount + selfServeCount
      ensures forall i :: 0 <= i < |lines| ==> fresh(lines[i])
      ensures forall i :: 0 <= i < |lines| ==>
        Lines()[i] == Line(KindAt(cashierCount, expressCount, i), [], true)
    {
      capacity := lineCapacity;
      var ls: seq<Counter> := [];
      var total := cashierCount + expressCount + selfServeCount;
      var countId := 0;
      while countId < total
        invariant 0 <= countId <= total && |ls| == countId
        invariant forall i :: 0 <= i < countId ==> fresh(ls[i])
        invariant forall i, j :: 0 <= i < countId && 0 <= j < countId && i != j ==> ls[i] != ls[j]
        invariant forall i :: 0 <= i < countId ==>
          ls[i].kind == KindAt(cashierCount, expressCount, i) && ls[i].customers == [] && ls[i].open
      {
        var count;
        if countId < cashierCount {
          count := new Counter(Cashier);
        } else if cashierCount <= countId < cashierCount + expressCount {
          count := new Counter(Express);
        } else {
          count := new Counter(SelfServe);
        }
        ls := ls + [count];
        countId := countId + 1;
      }
      lines := ls;
    }

    /** `line_is_empty(index)`: the line holds only the customer being
        served. */
    method LineIsEmpty(index: int) returns (r: Result<bool>)
      ensures match Resolve(index, |lines|)
        case None => r == Raise(IndexError)
        case Some(k) => r == Ok(|Lines()[k].customers| == 1)
    {
      match Resolve(index, |lines|)
      case None =>
        r := Raise(IndexError);
      case Some(k) =>
        r := Ok(|lines[k].customers| - 1 == 0);
    }

    /** The loop of `join_line` over the lines, which settles on
        `chosen_line_index`. */
    method ChooseLine(numItems: int) returns (c: nat)
      ensures JoinChoice(Lines(), numItems, capacity, c)
      ensures |lines| == 0 ==> c == 0
      ensures |lines| > 0 ==> c < |lines|
    {
      ghost var ls := Lines();
      c := 0;
      var shortestLength := capacity;
      var lineIndex := 0;
      while lineIndex < |lines|
        invariant 0 <= lineIndex <= |lines|
        invariant shortestLength <= capacity
        invariant shortestLength < capacity ==>
          c < lineIndex && Eligible(ls[c], numItems) && |ls[c].customers| == shortestLength &&
          (forall i :: 0 <= i < c && Eligible(ls[i], numItems) ==> |ls[i].customers| > shortestLength)
        invariant shortestLength == capacity ==> c == 0
        invariant forall i :: 0 <= i < lineIndex && Eligible(ls[i], numItems) ==> |ls[i].customers| >= shortestLength
      {
        if lines[lineIndex].open {
          var sublist := lines[lineIndex].customers;
          if numItems < 8 {
            if |sublist| < shortestLength {
              shortestLength := |sublist|;
              c := lineIndex;
            }
          } else if |sublist| < shortestLength && lines[lineIndex].kind != Express {
            shortestLength := |sublist|;
            c := lineIndex;
          }
        }
        lineIndex := lineIndex + 1;
      }
    }

    /** `join_line(name, num_items)`: the customer goes to the end of the
        line `JoinChoice` picks and no other line changes; with no line at
        all, indexing line 0 raises IndexError. */
    method JoinLine(name: string, numItems: int) returns (r: Result<nat>)
      requires Valid()
      modifies lines
      ensures |lines| == 0 <==> r == Raise(IndexError)
      ensures r.Ok? ==> var c := r.value; var ls := old(Lines());
        c < |ls| && JoinChoice(ls, numItems, capacity, c) &&
        Lines() == ls[c := ls[c].(customers := ls[c].customers + [Customer(name, numItems)])]
      ensures r.Raise? ==> Lines() == old(Lines())
    {
      var chosenLineIndex := ChooseLine(numItems);
      if chosenLineIndex >= |lines| {
        return Raise(IndexError);
      }
      lines[chosenLineIndex].AddCustomer(name, numItems);
      assert forall i :: 0 <= i < |lines| && i != chosenLineIndex ==> lines[i] != lines[chosenLineIndex];
      r := Ok(chosenLineIndex);
    }

    /** `spend_time(name, num_items)`: the checkout time for num_items at
        the last line that holds a customer called name; 0 when none does. */
    method SpendTime(name: string, numItems: int) returns (time: int)
      ensures var ls := Lines();
        ((forall i :: 0 <= i < |ls| ==> !Holds(ls[i], name)) ==> time == 0) &&
        ((exists i :: 0 <= i < |ls| && Holds(ls[i], name)) ==>
          exists i :: 0 <= i < |ls| && Holds(ls[i], name) &&
            (forall k :: i < k < |ls| ==> !Holds(ls[k], name)) && time == CheckoutTime(ls[i].kind, numItems))
    {
      ghost var ls := Lines();
      ghost var last: int := -1;
      time := 0;
      var i := 0;
      while i < |lines|
        invariant 0 <= i <= |lines|
        invariant -1 <= last < i
        invariant last == -1 ==> time == 0 && forall k :: 0 <= k < i ==> !Holds(ls[k], name)
        invariant last >= 0 ==>
          Holds(ls[last], name) && time == CheckoutTime(ls[last].kind, numItems) &&
          (forall k :: last < k < i ==> !Holds(ls[k], name))
      {
        var subList := lines[i].customers;
        var j := 0;
        ghost var found := false;
        while j < |subList|
          invariant 0 <= j <= |subList|
          invariant found <==> exists q :: 0 <= q < j && subList[q].name == name
          invariant found ==> time == CheckoutTime(ls[i].kind, numItems)
          invariant !found ==> last == -1 ==> time == 0
          invariant !found ==> last >= 0 ==> time == CheckoutTime(ls[last].kind, numItems)
        {
          if name == subList[j].name {
            time := CheckoutTime(lines[i].kind, numItems);
            found := true;
          }
          j := j + 1;
        }
        if found {
          last := i;
        }
        i := i + 1;
      }
    }

    /** The two loops the three `find_next_customer*` methods share: the
        first line holding name and the first position in it. */
    method FindFirst(name: string) returns (r: Option<(nat, nat)>)
      ensures r == FirstMatch(Lines(), name)
    {
      ghost var ls := Lines();
      var i := 0;
      while i < |lines|
        invariant 0 <= i <= |lines|
        invariant forall k :: 0 <= k < i ==> !Holds(ls[k], name)
      {
        var subList := lines[i].customers;
        var j := 0;
        while j < |subList|
          invariant 0 <= j <= |subList|
          invariant forall q :: 0 <= q < j ==> subList[q].name != name
        {
          if name == subList[j].name {
            FirstMatchAt(ls, name, i, j);
            return Some((i, j));
          }
          j := j + 1;
        }
        i := i + 1;
      }
      return None;
    }

    /** `find_next_customer(name)`: at the first match, False when it is
        the last of its line and True when someone follows; None when no
        line holds name. */
    method FindNextCustomer(name: string) returns (r: Option<bool>)
      ensures match FirstMatch(Lines(), name)
        case None => r == None
        case Some(m) => r == Some(m.1 != |Lines()[m.0].customers| - 1)
    {
      var q := FindFirst(name);
      match q
      case None =>
        r := None;
      case Some(m) =>
        if m.1 == |lines[m.0].customers| - 1 {
          r := Some(false);
        } else {
          r := Some(true);
        }
    }

    /** `find_next_customer_name(name)`: the name of the customer after the
        first match, IndexError when the match is last in its line, None
        when no line holds name. */
    method FindNextCustomerName(name: string) returns (r: Result<Option<string>>)
      ensures match FirstMatch(Lines(), name)
        case None => r == Ok(None)
        case Some(m) =>
          var cs := Lines()[m.0].customers;
          r == if m.1 + 1 < |cs| then Ok(Some(cs[m.1 + 1].name)) else Raise(IndexError)
    {
      var q := FindFirst(name);
      match q
      case None =>
        r := Ok(None);
      case Some(m) =>
        var cs := lines[m.0].customers;
        if m.1 + 1 < |cs| {
          r := Ok(Some(cs[m.1 + 1].name));
        } else {
          r := Raise(IndexError);
        }
    }

    /** `find_next_customer_items(name)`: the items of the customer after
        the first match, with the same errors. */
    method FindNextCustomerItems(name: string) returns (r: Result<Option<int>>)
      ensures match FirstMatch(Lines(), name)
        case None => r == Ok(None)
        case Some(m) =>
          var cs := Lines()[m.0].customers;
          r == if m.1 + 1 < |cs| then Ok(Some(cs[m.1 + 1].items)) else Raise(IndexError)
    {
      var q := FindFirst(name);
      match q
      case None =>
        r := Ok(None);
      case Some(m) =>
        var cs := lines[m.0].customers;
        if m.1 + 1 < |cs| {
          r := Ok(Some(cs[m.1 + 1].items));
        } else {
          r := Raise(IndexError);
        }
    }

    /** `leave_store(line_index)`: the front customer of that line leaves;
        IndexError for a line index out of range or an empty line. */
    method LeaveStore(lineIndex: int) returns (r: Result<()>)
      requires Valid()
      modifies lines
      ensures match Resolve(lineIndex, |lines|)
        case None => r == Raise(IndexError) && Lines() == old(Lines())
        case Some(k) =>
          var l := old(Lines())[k];
          if |l.customers| == 0 then r == Raise(IndexError) && Lines() == old(Lines())
          else r == Ok(()) && Lines() == old(Lines())[k := l.(customers := l.customers[1..])]
    {
      match Resolve(lineIndex, |lines|)
      case None =>
        r := Raise(IndexError);
      case Some(k) =>
        ghost var cs := lines[k].customers;
        r := lines[k].RemoveCustomer(0);
        if |cs| > 0 {
          assert cs[..0] + cs[1..] == cs[1..];
        }
        assert forall i :: 0 <= i < |lines| && i != k ==> lines[i] != lines[k];
    }

    /** `close_line(line_index)`: only that line's open flag changes, to
        False. */
    method CloseLine(lineIndex: int) returns (r: Result<()>)
      requires Valid()
      modifies lines
      ensures match Resolve(lineIndex, |lines|)
        case None => r == Raise(IndexError) && Lines() == old(Lines())
        case Some(k) => r == Ok(()) && Lines() == old(Lines())[k := old(Lines())[k].(open := false)]
    {
      match Resolve(lineIndex, |lines|)
      case None =>
        r := Raise(IndexError);
      case Some(k) =>
        lines[k].open := false;
        assert forall i :: 0 <= i < |lines| && i != k ==> lines[i] != lines[k];
        r := Ok(());
    }

    /** `get_customer_list(line_index)`. */
    method GetCustomerList(lineIndex: int) returns (r: Result<seq<Customer>>)
      ensures match Resolve(lineIndex, |lines|)
        case None => r == Raise(IndexError)
        case Some(k) => r == Ok(Lines()[k].customers)
    {
      match Resolve(lineIndex, |lines|)
      case None =>
        r := Raise(IndexError);
      case Some(k) =>
        r := Ok(lines[k].customers);
    }

    /** `leave_line(name)`: every line in turn runs the inner loop of
        `LeaveLineFrom`; the first line k where that loop reads past the end
        of its shortened list raises IndexError, leaving the lines before it
        done, line k as far as the loop got, and the lines after it as they
        were. */
    method LeaveLine(name: string) returns (r: Result<()>)
      requires Valid()
      modifies lines
      ensures r.Ok? ==>
        (forall i :: 0 <= i < |lines| ==> LeaveLineFrom(old(Lines())[i].customers, name).1) &&
        Lines() == LeftUpTo(old(Lines()), name, |lines|)
      ensures r.Raise? ==> r.error == IndexError
      ensures r.Raise? ==> exists k ::
        0 <= k < |lines| && !LeaveLineFrom(old(Lines())[k].customers, name).1 &&
        (forall i :: 0 <= i < k ==> LeaveLineFrom(old(Lines())[i].customers, name).1) &&
        Lines() == LeftUpTo(old(Lines()), name, k + 1)
    {
      ghost var ls := Lines();
      var i := 0;
      while i < |lines|
        invariant 0 <= i <= |lines|
        invariant forall k :: 0 <= k < i ==> LeaveLineFrom(ls[k].customers, name).1
        invariant Lines() == LeftUpTo(ls, name, i)
      {
        ghost var before := Lines();
        var ok := LeaveThisLine(i, name);
        assert Lines() == LeftUpTo(ls, name, i + 1) by {
          assert before[i] == ls[i];
        }
        if !ok {
          return Raise(IndexError);
        }
        i := i + 1;
      }
      return Ok(());
    }

    /** The inner loop of `leave_line` on line i. */
    method LeaveThisLine(i: nat, name: string) returns (ok: bool)
      requires Valid() && i < |lines|
      modifies lines[i]
      ensures var l := old(Lines())[i];
        ok == LeaveLineFrom(l.customers, name).1 && Lines() == old(Lines())[i := AfterLeave(l, name)]
    {
      ghost var cs0 := lines[i].customers;
      var line := lines[i];
      var n := |line.customers|;
      var j := 0;
      while j < n
        invariant 0 <= j <= n
        invariant line.open == old(line.open)
        invariant Pops(line.customers, name, j, n) == LeaveLineFrom(cs0, name)
      {
        if j >= |line.customers| {
          assert forall k :: 0 <= k < |lines| && k != i ==> lines[k] != line;
          return false;
        }
        if name == line.customers[j].name {
          var _ := line.RemoveCustomer(j);
        }
        j := j + 1;
      }
      assert forall k :: 0 <= k < |lines| && k != i ==> lines[k] != line;
      return true;
    }
  }
}
