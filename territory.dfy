// End-of-game territory scoring: the engine's calculateTerritory,
// findEmptyRegion and determineRegionOwner.

module Territory {
  import opened Board
  import opened Groups

  /**
   * determineRegionOwner's verdict: black when some stone bordering the
   * region is black and none is white, white symmetrically, otherwise
   * nobody (0), which includes a region with no bordering stone at all.
   */
  ghost function Owner(b: Grid, region: set<Pos>): int
    requires IsBoard(b)
  {
    var black := Frontier(b, region, Black) != {};
    var white := Frontier(b, region, White) != {};
    if black && !white then Black else if white && !black then White else Empty
  }

  ghost function EmptyCells(b: Grid): set<Pos>
    requires IsBoard(b)
  {
    set q | q in AllCells() && At(b, q) == Empty
  }

  /** The empty cells whose region is credited to `colour`. */
  ghost function TerritoryOf(b: Grid, colour: int): set<Pos>
    requires IsBoard(b)
  {
    set q | q in AllCells() && At(b, q) == Empty && Owner(b, Group(b, q)) == colour
  }

  /** The cells of `v` whose region is credited to `colour`. */
  ghost function CreditedIn(b: Grid, v: set<Pos>, colour: int): set<Pos>
    requires IsBoard(b)
  {
    set q | q in v && InBounds(q) && Owner(b, Group(b, q)) == colour
  }

  /** A union of whole empty regions: empty in-bounds cells, closed under empty adjacency. */
  ghost predicate RegionUnion(b: Grid, v: set<Pos>)
    requires IsBoard(b)
  {
    (forall q :: q in v ==> InBounds(q) && At(b, q) == Empty) && Closed(b, v, Empty)
  }

  /** An empty region outside a union of whole regions shares no cell with it. */
  lemma RegionAvoids(b: Grid, p: Pos, v: set<Pos>)
    requires IsBoard(b) && InBounds(p) && At(b, p) == Empty
    requires RegionUnion(b, v) && p !in v
    ensures Group(b, p) !! v
  {
    if x :| x in Group(b, p) && x in v {
      GroupLeast(b, x, v);
      GroupOfMember(b, p, x);
      GroupHasStart(b, p);
      assert false;
    }
  }

  /** Empty regions partition the empty cells, and territory is credited region by region. */
  lemma RegionsPartition(b: Grid, p: Pos, q: Pos, colour: int)
    requires IsBoard(b) && InBounds(p) && InBounds(q) && At(b, p) == Empty && At(b, q) == Empty
    ensures p in Group(b, p) && Group(b, p) <= EmptyCells(b)
    ensures Group(b, p) == Group(b, q) || Group(b, p) !! Group(b, q)
    ensures p in TerritoryOf(b, colour) ==> Group(b, p) <= TerritoryOf(b, colour)
  {
    GroupHasStart(b, p);
    GroupSameColour(b, p);
    GroupsDisjointOrEqual(b, p, q);
    forall x | x in Group(b, p)
      ensures Group(b, x) == Group(b, p)
    {
      GroupOfMember(b, p, x);
    }
  }

  /** Black and white territory are disjoint sets of empty cells, so together they never exceed the empty cells. */
  lemma TerritoryBound(b: Grid)
    requires IsBoard(b)
    ensures TerritoryOf(b, Black) !! TerritoryOf(b, White)
    ensures |TerritoryOf(b, Black)| + |TerritoryOf(b, White)| <= |EmptyCells(b)|
  {
    var both := TerritoryOf(b, Black) + TerritoryOf(b, White);
    assert both <= EmptyCells(b);
    assert EmptyCells(b) == both + (EmptyCells(b) - both);
    assert |EmptyCells(b)| == |both| + |EmptyCells(b) - both|;
  }

  /** Adding a whole region to the scanned cells adds it to exactly its owner's credit. */
  lemma CreditStep(b: Grid, v: set<Pos>, p: Pos, colour: int)
    requires IsBoard(b) && InBounds(p) && At(b, p) == Empty
    requires RegionUnion(b, v) && p !in v
    ensures Group(b, p) !! v
    ensures |CreditedIn(b, v + Group(b, p), colour)| ==
            |CreditedIn(b, v, colour)| + (if Owner(b, Group(b, p)) == colour then |Group(b, p)| else 0)
  {
    var g := Group(b, p);
    RegionAvoids(b, p, v);
    GroupSameColour(b, p);
    forall x | x in g
      ensures Group(b, x) == g
    {
      GroupOfMember(b, p, x);
    }
    var added := if Owner(b, g) == colour then g else {};
    assert CreditedIn(b, v + g, colour) == CreditedIn(b, v, colour) + added;
    assert CreditedIn(b, v, colour) !! added;
  }

  /**
   * Cells apart from a union of whole regions whose empty neighbours all lie
   * in it or among themselves are closed on their own.
   */
  lemma ClosedBeside(b: Grid, v: set<Pos>, s: set<Pos>)
    requires IsBoard(b) && RegionUnion(b, v) && s !! v
    requires forall q :: q in s ==> InBounds(q) && At(b, q) == Empty
    requires forall q, n :: q in s && n in Neighbours(q) && InBounds(n) && At(b, n) == Empty ==> n in v + s
    ensures Closed(b, s, Empty)
  {
    forall q, n | q in s && n in Neighbours(q) && InBounds(n) && At(b, n) == Empty
      ensures n in s
    {
      NeighboursAreAdjacent(q, n);
    }
  }

  /** The union of two unions of whole regions is one too. */
  lemma RegionUnionAdd(b: Grid, v: set<Pos>, p: Pos)
    requires IsBoard(b) && InBounds(p) && At(b, p) == Empty
    requires RegionUnion(b, v)
    ensures RegionUnion(b, v + Group(b, p))
  {
    GroupSameColour(b, p);
    GroupClosed(b, p);
  }

  /** Some in-bounds neighbour of `cell` holds `colour`. */
  ghost predicate Touches(b: Grid, cell: Pos, colour: int)
    requires IsBoard(b)
  {
    exists q :: q in Neighbours(cell) && InBounds(q) && At(b, q) == colour
  }

  /** A region borders a colour exactly when one of its cells touches that colour. */
  lemma FrontierTouches(b: Grid, region: seq<Pos>, colour: int)
    requires IsBoard(b)
    ensures Frontier(b, (set x | x in region), colour) != {} <==>
            exists j :: 0 <= j < |region| && Touches(b, region[j], colour)
  {
    if j :| 0 <= j < |region| && Touches(b, region[j], colour) {
      var q :| q in Neighbours(region[j]) && InBounds(q) && At(b, q) == colour;
      assert q in Frontier(b, (set x | x in region), colour);
    }
  }

  /**
   * The inner loop of determineRegionOwner: adds the black and the white
   * in-bounds neighbours of `cell` to the running counts.
   */
  method CountNeighbourStones(b: Grid, cell: Pos, black0: nat, white0: nat) returns (black: nat, white: nat)
    requires IsBoard(b)
    ensures black >= black0 && (black > black0 <==> Touches(b, cell, Black))
    ensures white >= white0 && (white > white0 <==> Touches(b, cell, White))
  {
    black, white := black0, white0;
    var adjacent := Neighbours(cell);
    for k := 0 to 4
      invariant black >= black0 && (black > black0 <==> exists q :: q in adjacent[..k] && InBounds(q) && At(b, q) == Black)
      invariant white >= white0 && (white > white0 <==> exists q :: q in adjacent[..k] && InBounds(q) && At(b, q) == White)
    {
      var a := adjacent[k];
      assert forall q :: q in adjacent[..k + 1] <==> q in adjacent[..k] || q == a by {
        assert adjacent[..k + 1] == adjacent[..k] + [a];
      }
      if IsValidPosition(a.row, a.col) {
        if b[a.row][a.col] == Black {
          assert a in adjacent[..k + 1] && At(b, a) == Black;
          black := black + 1;
        }
        if b[a.row][a.col] == White {
          assert a in adjacent[..k + 1] && At(b, a) == White;
          white := white + 1;
        }
      }
    }
    assert adjacent[..4] == adjacent;
  }

  /**
   * determineRegionOwner: tallies the black and the white stones next to
   * the region's cells (with repetition) and names the one colour seen.
   */
  method DetermineRegionOwner(b: Grid, region: seq<Pos>) returns (owner: int)
    requires IsBoard(b)
    ensures owner == Owner(b, set q | q in region)
  {
    var blackCount, whiteCount := 0, 0;
    for i := 0 to |region|
      invariant blackCount > 0 <==> exists j :: 0 <= j < i && Touches(b, region[j], Black)
      invariant whiteCount > 0 <==> exists j :: 0 <= j < i && Touches(b, region[j], White)
    {
      blackCount, whiteCount := CountNeighbourStones(b, region[i], blackCount, whiteCount);
    }
    FrontierTouches(b, region, Black);
    FrontierTouches(b, region, White);
    if blackCount > 0 && whiteCount == 0 {
      return Black;
    }
    if whiteCount > 0 && blackCount == 0 {
      return White;
    }
    return Empty;
  }

  /**
   * The inner loop of findEmptyRegion: appends each in-bounds, unvisited,
   * empty neighbour of `current` to the queue.
   */
  method EnqueueNeighbours(b: Grid, current: Pos, visited: set<Pos>, queue0: seq<Pos>) returns (queue: seq<Pos>)
    requires IsBoard(b)
    ensures forall q :: q in queue <==>
              q in queue0 || (q in Neighbours(current) && InBounds(q) && q !in visited && At(b, q) == Empty)
  {
    queue := queue0;
    var adjacent := Neighbours(current);
    for k := 0 to 4
      invariant forall q :: q in queue <==>
                  q in queue0 || (q in adjacent[..k] && InBounds(q) && q !in visited && At(b, q) == Empty)
    {
      var pos := adjacent[k];
      if IsValidPosition(pos.row, pos.col) && pos !in visited && b[pos.row][pos.col] == Empty {
        queue := queue + [pos];
      }
    }
    assert adjacent[..4] == adjacent;
  }

  /**
   * The state of findEmptyRegion's search from `p`: `found` (the cells taken
   * so far) lies outside the caller's `visited0`, every queued or found cell
   * is an empty cell that every closed empty set holding `p` contains, and
   * every empty neighbour of a found cell is visited or queued.
   */
  ghost predicate Searching(b: Grid, p: Pos, visited0: set<Pos>, visited: set<Pos>, found: set<Pos>, queue: seq<Pos>)
    requires IsBoard(b)
  {
    visited == visited0 + found && found !! visited0 && p !in visited0 &&
    (forall q :: q in found ==> InBounds(q) && At(b, q) == Empty) &&
    (forall q :: q in queue ==> InBounds(q) && At(b, q) == Empty) &&
    (p in found || p in queue) &&
    (forall q, n :: q in found && n in Neighbours(q) && InBounds(n) && At(b, n) == Empty ==> n in visited || n in queue) &&
    (forall t {:trigger Closed(b, t, Empty)} :: p in t && Closed(b, t, Empty) ==>
       found <= t && forall x :: x in queue ==> x in t)
  }

  /** Dropping an already visited cell from the head of the queue keeps the search state. */
  lemma SearchSkip(b: Grid, p: Pos, visited0: set<Pos>, visited: set<Pos>, found: set<Pos>, queue: seq<Pos>)
    requires IsBoard(b) && Searching(b, p, visited0, visited, found, queue)
    requires queue != [] && queue[0] in visited
    ensures Searching(b, p, visited0, visited, found, queue[1..])
  {
    assert queue == [queue[0]] + queue[1..];
  }

  /** The head of the queue is an empty cell; when unvisited it is new and its taking shrinks the unvisited cells. */
  lemma SearchHead(b: Grid, p: Pos, visited0: set<Pos>, visited: set<Pos>, found: set<Pos>, queue: seq<Pos>)
    requires IsBoard(b) && Searching(b, p, visited0, visited, found, queue)
    requires queue != [] && queue[0] !in visited
    ensures InBounds(queue[0]) && At(b, queue[0]) == Empty && queue[0] !in found
    ensures |found + {queue[0]}| == |found| + 1
    ensures AllCells() - (visited + {queue[0]}) < AllCells() - visited
  {
    assert queue[0] in AllCells();
  }

  /** Taking the unvisited head of the queue and queueing its fresh empty neighbours keeps the search state. */
  lemma SearchTake(b: Grid, p: Pos, visited0: set<Pos>, visited: set<Pos>, found: set<Pos>, queue: seq<Pos>,
                   queue': seq<Pos>)
    requires IsBoard(b) && Searching(b, p, visited0, visited, found, queue)
    requires queue != [] && queue[0] !in visited
    requires forall q :: q in queue' <==>
               q in queue[1..] ||
               (q in Neighbours(queue[0]) && InBounds(q) && q !in visited + {queue[0]} && At(b, q) == Empty)
    ensures Searching(b, p, visited0, visited + {queue[0]}, found + {queue[0]}, queue')
  {
    var c := queue[0];
    assert queue == [c] + queue[1..];
    forall q, n | q in found + {c} && n in Neighbours(q) && InBounds(n) && At(b, n) == Empty
      ensures n in visited + {c} || n in queue'
    {
      if q != c && n !in visited + {c} {
        assert n in queue && n != c;
        assert n in queue[1..];
      }
    }
    forall t | p in t && Closed(b, t, Empty)
      ensures found + {c} <= t && forall x :: x in queue' ==> x in t
    {
    }
  }

  /** A search whose queue has run dry has found exactly the region of `p`. */
  lemma SearchDone(b: Grid, p: Pos, visited0: set<Pos>, visited: set<Pos>, found: set<Pos>)
    requires IsBoard(b) && InBounds(p) && At(b, p) == Empty && RegionUnion(b, visited0)
    requires Searching(b, p, visited0, visited, found, [])
    ensures found == Group(b, p)
  {
    ClosedBeside(b, visited0, found);
    GroupUnique(b, p, found);
  }

  /**
   * findEmptyRegion: breadth-first search from the empty cell `p` through
   * empty cells, marking each cell it takes in `visited`.  The caller's
   * `visited` holds only whole regions; the updated set is returned.
   */
  method FindEmptyRegion(b: Grid, p: Pos, visited0: set<Pos>) returns (region: seq<Pos>, visited: set<Pos>)
    requires IsBoard(b) && InBounds(p) && At(b, p) == Empty
    requires RegionUnion(b, visited0) && p !in visited0
    ensures forall q :: q in region <==> q in Group(b, p)
    ensures |region| == |Group(b, p)|
    ensures visited == visited0 + Group(b, p)
  {
    region := [];
    visited := visited0;
    var queue := [p];
    ghost var found: set<Pos> := {};
    while queue != []
      invariant Searching(b, p, visited0, visited, found, queue)
      invariant forall q :: q in region <==> q in found
      invariant |region| == |found|
      decreases AllCells() - visited, |queue|
    {
      var current := queue[0];
      ghost var before := queue;
      queue := queue[1..];
      if current in visited {
        SearchSkip(b, p, visited0, visited, found, before);
        continue;
      }
      SearchHead(b, p, visited0, visited, found, before);
      ghost var visitedBefore := visited;
      visited := visited + {current};
      if b[current.row][current.col] == Empty {
        region := region + [current];
        queue := EnqueueNeighbours(b, current, visited, queue);
        SearchTake(b, p, visited0, visitedBefore, found, before, queue);
        found := found + {current};
      } else {
        // Only empty cells are ever queued.
        assert false;
      }
    }
    SearchDone(b, p, visited0, visited, found);
  }

  /**
   * The state of calculateTerritory's scan before cell (`row`, `col`): the
   * visited cells are whole empty regions, including every empty cell
   * scanned so far, and each count is the size of its colour's credit.
   */
  ghost predicate Scanned(b: Grid, visited: set<Pos>, black: nat, white: nat, row: int, col: int)
    requires IsBoard(b)
  {
    RegionUnion(b, visited) &&
    black == |CreditedIn(b, visited, Black)| && white == |CreditedIn(b, visited, White)| &&
    forall q :: InBounds(q) && (q.row < row || (q.row == row && q.col < col)) && At(b, q) == Empty ==> q in visited
  }

  /**
   * Scanning an empty unvisited cell, whose region findEmptyRegion returned
   * and determineRegionOwner judged, adds that whole region to the visited
   * cells and its size to its owner's count.
   */
  lemma ScanRegion(b: Grid, v: set<Pos>, black: nat, white: nat, p: Pos,
                   region: seq<Pos>, v': set<Pos>, owner: int)
    requires IsBoard(b) && InBounds(p) && At(b, p) == Empty && p !in v
    requires Scanned(b, v, black, white, p.row, p.col)
    requires forall q :: q in region <==> q in Group(b, p)
    requires |region| == |Group(b, p)| && v' == v + Group(b, p)
    requires owner == Owner(b, set q | q in region)
    ensures Scanned(b, v',
                    if owner == Black then black + |region| else black,
                    if owner == White then white + |region| else white,
                    p.row, p.col + 1)
  {
    assert (set q | q in region) == Group(b, p);
    CreditStep(b, v, p, Black);
    CreditStep(b, v, p, White);
    RegionUnionAdd(b, v, p);
    GroupHasStart(b, p);
    if owner == Black {
      assert |CreditedIn(b, v', Black)| == black + |region|;
      assert |CreditedIn(b, v', White)| == white;
    } else if owner == White {
      assert |CreditedIn(b, v', Black)| == black;
      assert |CreditedIn(b, v', White)| == white + |region|;
    } else {
      assert |CreditedIn(b, v', Black)| == black;
      assert |CreditedIn(b, v', White)| == white;
    }
    forall q | InBounds(q) && (q.row < p.row || (q.row == p.row && q.col < p.col + 1)) && At(b, q) == Empty
      ensures q in v'
    {
      if q != p {
        assert q in v;
      }
    }
  }

  /** Scanning a stone or an already visited cell changes nothing. */
  lemma ScanSkip(b: Grid, v: set<Pos>, black: nat, white: nat, p: Pos)
    requires IsBoard(b) && InBounds(p) && (At(b, p) != Empty || p in v)
    requires Scanned(b, v, black, white, p.row, p.col)
    ensures Scanned(b, v, black, white, p.row, p.col + 1)
  {
  }

  /** A fully scanned board has credited exactly the territory. */
  lemma ScanComplete(b: Grid, v: set<Pos>, black: nat, white: nat)
    requires IsBoard(b) && Scanned(b, v, black, white, N, 0)
    ensures black == |TerritoryOf(b, Black)| && white == |TerritoryOf(b, White)|
  {
    assert CreditedIn(b, v, Black) == TerritoryOf(b, Black);
    assert CreditedIn(b, v, White) == TerritoryOf(b, White);
  }

  /**
   * calculateTerritory: scans the board row by row; every empty cell not yet
   * visited starts a new region, whose size goes to its owner's total.
   */
  method CalculateTerritory(b: Grid) returns (black: nat, white: nat)
    requires IsBoard(b)
    ensures black == |TerritoryOf(b, Black)|
    ensures white == |TerritoryOf(b, White)|
  {
    black, white := 0, 0;
    var visited: set<Pos> := {};
    for row := 0 to N
      invariant Scanned(b, visited, black, white, row, 0)
    {
      for col := 0 to N
        invariant Scanned(b, visited, black, white, row, col)
      {
        var p := Pos(row, col);
        if b[row][col] == Empty && p !in visited {
          var region, visited' := FindEmptyRegion(b, p, visited);
          var owner := DetermineRegionOwner(b, region);
          ScanRegion(b, visited, black, white, p, region, visited', owner);
          visited := visited';
          if owner == Black {
            black := black + |region|;
          } else if owner == White {
            white := white + |region|;
          }
        } else {
          ScanSkip(b, visited, black, white, p);
        }
      }
    }
    ScanComplete(b, visited, black, white);
  }
}
