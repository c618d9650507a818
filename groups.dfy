// Connected-component discovery and liberty counting over a board:
// the engine's findGroup and countLiberties.

module Groups {
  import opened Board

  /** `t` is closed under stepping from a member to an in-bounds neighbour of `colour`. */
  ghost predicate Closed(b: Grid, t: set<Pos>, colour: int)
    requires IsBoard(b)
  {
    forall q, n :: q in t && n in Neighbours(q) && InBounds(n) && At(b, n) == colour ==> n in t
  }

  /** `q` lies in every closed set that contains `p`. */
  ghost predicate Connected(b: Grid, p: Pos, q: Pos)
    requires IsBoard(b) && InBounds(p)
  {
    forall t {:trigger Closed(b, t, At(b, p))} :: p in t && Closed(b, t, At(b, p)) ==> q in t
  }

  /**
   * The group of `p`: the smallest set containing `p` and closed under
   * same-coloured orthogonal adjacency, i.e. the orthogonally connected
   * component of cells that share `p`'s value.  On an empty cell it is the
   * maximal empty region around `p`.
   */
  ghost function Group(b: Grid, p: Pos): set<Pos>
    requires IsBoard(b) && InBounds(p)
  {
    set q | q in AllCells() && Connected(b, p, q)
  }

  /** The in-bounds cells holding `colour` that touch some member of `s`. */
  ghost function Frontier(b: Grid, s: set<Pos>, colour: int): set<Pos>
    requires IsBoard(b)
  {
    set q | q in AllCells() && At(b, q) == colour && exists m :: m in s && q in Neighbours(m)
  }

  /** The liberties of `s`: the distinct empty cells next to it. */
  ghost function Liberties(b: Grid, s: set<Pos>): set<Pos>
    requires IsBoard(b)
  {
    Frontier(b, s, Empty)
  }

  lemma GroupHasStart(b: Grid, p: Pos)
    requires IsBoard(b) && InBounds(p)
    ensures p in Group(b, p)
  {
    assert Connected(b, p, p);
  }

  /** Every member of a group is in bounds and has the start's value. */
  lemma GroupSameColour(b: Grid, p: Pos)
    requires IsBoard(b) && InBounds(p)
    ensures forall q :: q in Group(b, p) ==> InBounds(q) && At(b, q) == At(b, p)
  {
    var same := set q | q in AllCells() && At(b, q) == At(b, p);
    assert Closed(b, same, At(b, p));
    forall q | q in Group(b, p)
      ensures At(b, q) == At(b, p)
    {
      assert Connected(b, p, q);
    }
  }

  lemma GroupClosed(b: Grid, p: Pos)
    requires IsBoard(b) && InBounds(p)
    ensures Closed(b, Group(b, p), At(b, p))
  {
    var g := Group(b, p);
    forall q, n | q in g && n in Neighbours(q) && InBounds(n) && At(b, n) == At(b, p)
      ensures n in g
    {
      forall t | p in t && Closed(b, t, At(b, p))
        ensures n in t
      {
        assert Connected(b, p, q);
      }
      assert Connected(b, p, n);
    }
  }

  /** A group lies inside every closed set that contains its start. */
  lemma GroupLeast(b: Grid, p: Pos, t: set<Pos>)
    requires IsBoard(b) && InBounds(p)
    requires p in t && Closed(b, t, At(b, p))
    ensures Group(b, p) <= t
  {
    forall q | q in Group(b, p)
      ensures q in t
    {
      assert Connected(b, p, q);
    }
  }

  /** A set that contains `p`, is closed and lies in every closed set containing `p` is `p`'s group. */
  lemma GroupUnique(b: Grid, p: Pos, s: set<Pos>)
    requires IsBoard(b) && InBounds(p)
    requires p in s && Closed(b, s, At(b, p))
    requires forall q :: q in s ==> InBounds(q)
    requires forall t {:trigger Closed(b, t, At(b, p))} :: p in t && Closed(b, t, At(b, p)) ==> s <= t
    ensures s == Group(b, p)
  {
    GroupLeast(b, p, s);
    forall q | q in s
      ensures q in Group(b, p)
    {
      assert Connected(b, p, q);
    }
  }

  /** Any member of a group has the same group: groups are equivalence classes. */
  lemma GroupOfMember(b: Grid, p: Pos, q: Pos)
    requires IsBoard(b) && InBounds(p)
    requires q in Group(b, p)
    ensures InBounds(q) && Group(b, q) == Group(b, p)
  {
    var a := Group(b, p);
    var c := At(b, p);
    GroupSameColour(b, p);
    GroupClosed(b, p);
    // Group(q) <= Group(p): Group(p) is closed for q's colour and holds q.
    GroupLeast(b, q, a);
    // Group(p) <= Group(q): the members of Group(p) whose group holds p form a closed set.
    var back := set y | y in a && InBounds(y) && p in Group(b, y);
    GroupHasStart(b, p);
    assert p in back;
    forall y, n | y in back && n in Neighbours(y) && InBounds(n) && At(b, n) == c
      ensures n in back
    {
      assert n in a;
      GroupHasStart(b, n);
      NeighboursAreAdjacent(y, n);
      GroupClosed(b, n);
      assert y in Group(b, n);
      GroupLeast(b, y, Group(b, n));
    }
    assert Closed(b, back, c);
    GroupLeast(b, p, back);
    assert q in back;
    GroupClosed(b, q);
    GroupLeast(b, p, Group(b, q));
  }

  /** Two groups are either the same set or share no cell. */
  lemma GroupsDisjointOrEqual(b: Grid, p: Pos, q: Pos)
    requires IsBoard(b) && InBounds(p) && InBounds(q)
    ensures Group(b, p) == Group(b, q) || Group(b, p) !! Group(b, q)
  {
    if x :| x in Group(b, p) && x in Group(b, q) {
      GroupOfMember(b, p, x);
      GroupOfMember(b, q, x);
    }
  }

  /**
   * The state of findGroup's search from `p`: every visited cell has `p`'s
   * colour and lies in every closed set holding `p`, as does every stacked
   * cell of that colour; `p` is visited or stacked; and every same-coloured
   * neighbour of a visited cell is visited or stacked.
   */
  ghost predicate Tracing(b: Grid, p: Pos, colour: int, visited: set<Pos>, stack: seq<Pos>)
    requires IsBoard(b)
  {
    (forall q :: q in visited ==> InBounds(q) && At(b, q) == colour) &&
    (p in visited || p in stack) &&
    (forall q, n :: q in visited && n in Neighbours(q) && InBounds(n) && At(b, n) == colour ==>
       n in visited || n in stack) &&
    (forall t {:trigger Closed(b, t, colour)} :: p in t && Closed(b, t, colour) ==>
       visited <= t && forall x :: x in stack && InBounds(x) && At(b, x) == colour ==> x in t)
  }

  /** Popping a visited, off-board or differently coloured cell keeps the search state. */
  lemma TraceSkip(b: Grid, p: Pos, colour: int, visited: set<Pos>, stack: seq<Pos>)
    requires IsBoard(b) && InBounds(p) && At(b, p) == colour
    requires Tracing(b, p, colour, visited, stack) && stack != []
    requires var x := stack[|stack| - 1]; x in visited || !InBounds(x) || At(b, x) != colour
    ensures Tracing(b, p, colour, visited, stack[..|stack| - 1])
  {
    assert stack == stack[..|stack| - 1] + [stack[|stack| - 1]];
  }

  /** Visiting the unvisited same-coloured cell on top and pushing its neighbours keeps the search state. */
  lemma TraceTake(b: Grid, p: Pos, colour: int, visited: set<Pos>, stack: seq<Pos>)
    requires IsBoard(b) && Tracing(b, p, colour, visited, stack) && stack != []
    requires var x := stack[|stack| - 1]; x !in visited && InBounds(x) && At(b, x) == colour
    ensures var x := stack[|stack| - 1];
            Tracing(b, p, colour, visited + {x}, stack[..|stack| - 1] + Neighbours(x))
  {
    var x := stack[|stack| - 1];
    var rest := stack[..|stack| - 1];
    assert stack == rest + [x];
    forall t | p in t && Closed(b, t, colour)
      ensures x in t && forall y :: y in Neighbours(x) && InBounds(y) && At(b, y) == colour ==> y in t
    {
    }
  }

  /**
   * findGroup: the cells of the group of `p`, each once, found by a
   * visited-set guarded traversal with an explicit stack.
   */
  method FindGroup(b: Grid, p: Pos) returns (group: seq<Pos>)
    requires IsBoard(b) && InBounds(p)
    ensures forall q :: q in group <==> q in Group(b, p)
    ensures |group| == |Group(b, p)|
  {
    var colour := b[p.row][p.col];
    var visited: set<Pos> := {};
    group := [];
    var stack := [p];
    while stack != []
      invariant Tracing(b, p, colour, visited, stack)
      invariant forall q :: q in group <==> q in visited
      invariant |group| == |visited|
      decreases AllCells() - visited, |stack|
    {
      var x := stack[|stack| - 1];
      if x in visited || !IsValidPosition(x.row, x.col) || b[x.row][x.col] != colour {
        TraceSkip(b, p, colour, visited, stack);
        stack := stack[..|stack| - 1];
        continue;
      }
      TraceTake(b, p, colour, visited, stack);
      assert x in AllCells();
      stack := stack[..|stack| - 1];
      visited := visited + {x};
      group := group + [x];
      stack := stack + Neighbours(x);
    }
    GroupUnique(b, p, visited);
  }

  /** countLiberties: the number of distinct empty cells next to the given cells. */
  method CountLiberties(b: Grid, group: seq<Pos>) returns (count: nat)
    requires IsBoard(b)
    ensures count == |Liberties(b, set q | q in group)|
  {
    var liberties: set<Pos> := {};
    for i := 0 to |group|
      invariant forall q :: q in liberties <==>
                  InBounds(q) && At(b, q) == Empty && exists j :: 0 <= j < i && q in Neighbours(group[j])
    {
      var adjacent := Neighbours(group[i]);
      for k := 0 to 4
        invariant forall q :: q in liberties <==>
                    InBounds(q) && At(b, q) == Empty &&
                    ((exists j :: 0 <= j < i && q in Neighbours(group[j])) || q in adjacent[..k])
      {
        var a := adjacent[k];
        if IsValidPosition(a.row, a.col) && b[a.row][a.col] == Empty {
          liberties := liberties + {a};
        }
      }
    }
    assert liberties == Liberties(b, set q | q in group);
    count := |liberties|;
  }
}
