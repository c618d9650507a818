// Capture detection: the engine's findCapturedStones, which collects every
// opponent group next to a just-placed stone that has no liberty left.

module Captures {
  import opened Board
  import opened Groups

  /** The group at `n` when it is an in-bounds `opponent` group with no liberty; otherwise nothing. */
  ghost function CapturedAt(b: Grid, n: Pos, opponent: int): set<Pos>
    requires IsBoard(b)
  {
    if InBounds(n) && At(b, n) == opponent && Liberties(b, Group(b, n)) == {} then Group(b, n) else {}
  }

  /** The cells captured through the neighbours `ns`, without repetition. */
  ghost function CapturedVia(b: Grid, ns: seq<Pos>, opponent: int): set<Pos>
    requires IsBoard(b)
  {
    if ns == [] then {} else CapturedVia(b, ns[..|ns| - 1], opponent) + CapturedAt(b, ns[|ns| - 1], opponent)
  }

  /** The length of the captured list built through `ns`: a group reached twice is counted twice. */
  ghost function TallyVia(b: Grid, ns: seq<Pos>, opponent: int): nat
    requires IsBoard(b)
  {
    if ns == [] then 0 else TallyVia(b, ns[..|ns| - 1], opponent) + |CapturedAt(b, ns[|ns| - 1], opponent)|
  }

  /** The cells a stone of `player` at `p` captures. */
  ghost function CaptureSet(b: Grid, p: Pos, player: int): set<Pos>
    requires IsBoard(b)
  {
    CapturedVia(b, Neighbours(p), Opponent(player))
  }

  /** The length of findCapturedStones's list for a stone of `player` at `p`. */
  ghost function CaptureCount(b: Grid, p: Pos, player: int): nat
    requires IsBoard(b)
  {
    TallyVia(b, Neighbours(p), Opponent(player))
  }

  lemma {:induction false} CapturedViaMembers(b: Grid, ns: seq<Pos>, opponent: int)
    requires IsBoard(b)
    ensures forall q :: q in CapturedVia(b, ns, opponent) <==>
              exists i :: 0 <= i < |ns| && q in CapturedAt(b, ns[i], opponent)
  {
    if ns != [] {
      var init := ns[..|ns| - 1];
      CapturedViaMembers(b, init, opponent);
      forall q | q in CapturedVia(b, ns, opponent)
        ensures exists i :: 0 <= i < |ns| && q in CapturedAt(b, ns[i], opponent)
      {
        if q in CapturedVia(b, init, opponent) {
          var i :| 0 <= i < |init| && q in CapturedAt(b, init[i], opponent);
          assert ns[i] == init[i];
        } else {
          assert q in CapturedAt(b, ns[|ns| - 1], opponent);
        }
      }
      forall q, i | 0 <= i < |ns| && q in CapturedAt(b, ns[i], opponent)
        ensures q in CapturedVia(b, ns, opponent)
      {
        if i < |ns| - 1 {
          assert init[i] == ns[i];
        }
      }
    }
  }

  /** The tally is at least the number of distinct captured cells, and zero exactly when nothing is captured. */
  lemma {:induction false} TallyCovers(b: Grid, ns: seq<Pos>, opponent: int)
    requires IsBoard(b)
    ensures |CapturedVia(b, ns, opponent)| <= TallyVia(b, ns, opponent)
    ensures TallyVia(b, ns, opponent) == 0 <==> CapturedVia(b, ns, opponent) == {}
  {
    if ns != [] {
      var init := ns[..|ns| - 1];
      TallyCovers(b, init, opponent);
      var last := CapturedAt(b, ns[|ns| - 1], opponent);
      assert |CapturedVia(b, init, opponent) + last| <= |CapturedVia(b, init, opponent)| + |last|;
    }
  }

  lemma ViaStep(b: Grid, ns: seq<Pos>, opponent: int)
    requires IsBoard(b) && ns != []
    ensures CapturedVia(b, ns, opponent) == CapturedVia(b, ns[..|ns| - 1], opponent) + CapturedAt(b, ns[|ns| - 1], opponent)
    ensures TallyVia(b, ns, opponent) == TallyVia(b, ns[..|ns| - 1], opponent) + |CapturedAt(b, ns[|ns| - 1], opponent)|
  {
  }

  /** What is captured is made of whole opponent groups without liberties, each next to `p`. */
  lemma CaptureSetShape(b: Grid, p: Pos, player: int, q: Pos)
    requires IsBoard(b)
    requires q in CaptureSet(b, p, player)
    ensures InBounds(q) && At(b, q) == Opponent(player)
    ensures Liberties(b, Group(b, q)) == {}
    ensures Group(b, q) <= CaptureSet(b, p, player)
    ensures exists n :: n in Neighbours(p) && InBounds(n) && q in Group(b, n)
  {
    CapturedViaMembers(b, Neighbours(p), Opponent(player));
    var i :| 0 <= i < 4 && q in CapturedAt(b, Neighbours(p)[i], Opponent(player));
    var n := Neighbours(p)[i];
    GroupSameColour(b, n);
    GroupOfMember(b, n, q);
    forall x | x in Group(b, q)
      ensures x in CaptureSet(b, p, player)
    {
      assert x in CapturedAt(b, n, Opponent(player));
    }
  }

  /** Every opponent group next to `p` that has no liberty is captured whole. */
  lemma CaptureComplete(b: Grid, p: Pos, player: int, n: Pos)
    requires IsBoard(b)
    requires n in Neighbours(p) && InBounds(n) && At(b, n) == Opponent(player)
    requires Liberties(b, Group(b, n)) == {}
    ensures Group(b, n) <= CaptureSet(b, p, player)
  {
    CapturedViaMembers(b, Neighbours(p), Opponent(player));
    var i :| 0 <= i < 4 && Neighbours(p)[i] == n;
    forall x | x in Group(b, n)
      ensures x in CaptureSet(b, p, player)
    {
      assert x in CapturedAt(b, Neighbours(p)[i], Opponent(player));
    }
  }

  /** The captured list is at least as long as the set of captured cells, and empty exactly when that set is. */
  lemma CaptureCountCovers(b: Grid, p: Pos, player: int)
    requires IsBoard(b)
    ensures |CaptureSet(b, p, player)| <= CaptureCount(b, p, player)
    ensures CaptureCount(b, p, player) == 0 <==> CaptureSet(b, p, player) == {}
  {
    TallyCovers(b, Neighbours(p), Opponent(player));
  }

  /**
   * The forEach callback of findCapturedStones for the neighbour `n`: the
   * cells of its group when it is an in-bounds `opponent` stone whose group
   * has no liberty, otherwise nothing.
   */
  method CapturedNear(b: Grid, n: Pos, opponent: int) returns (group: seq<Pos>)
    requires IsBoard(b)
    ensures forall q :: q in group <==> q in CapturedAt(b, n, opponent)
    ensures |group| == |CapturedAt(b, n, opponent)|
  {
    group := [];
    if IsValidPosition(n.row, n.col) && b[n.row][n.col] == opponent {
      var members := FindGroup(b, n);
      var liberties := CountLiberties(b, members);
      assert (set q | q in members) == Group(b, n);
      if liberties == 0 {
        group := members;
      }
    }
  }

  /**
   * findCapturedStones: for each neighbour of `p` holding the opponent of
   * `player`, the cells of its group when that group has no liberty.
   */
  method FindCapturedStones(b: Grid, p: Pos, player: int) returns (captured: seq<Pos>)
    requires IsBoard(b)
    ensures forall q :: q in captured <==> q in CaptureSet(b, p, player)
    ensures |captured| == CaptureCount(b, p, player)
  {
    captured := [];
    var opponent := if player == Black then White else Black;
    var adjacent := Neighbours(p);
    for k := 0 to 4
      invariant Collected(b, adjacent, k, opponent, captured)
    {
      var group := CapturedNear(b, adjacent[k], opponent);
      CollectStep(b, adjacent, k, opponent, captured, group);
      captured := captured + group;
    }
    assert adjacent[..4] == adjacent;
  }

  /** `captured` is what the callback has collected from the first `k` neighbours in `ns`. */
  ghost predicate Collected(b: Grid, ns: seq<Pos>, k: int, opponent: int, captured: seq<Pos>)
    requires IsBoard(b) && 0 <= k <= |ns|
  {
    (forall q :: q in captured <==> q in CapturedVia(b, ns[..k], opponent)) &&
    |captured| == TallyVia(b, ns[..k], opponent)
  }

  lemma CollectStep(b: Grid, ns: seq<Pos>, k: int, opponent: int, captured: seq<Pos>, group: seq<Pos>)
    requires IsBoard(b) && 0 <= k < |ns| && Collected(b, ns, k, opponent, captured)
    requires forall q :: q in group <==> q in CapturedAt(b, ns[k], opponent)
    requires |group| == |CapturedAt(b, ns[k], opponent)|
    ensures Collected(b, ns, k + 1, opponent, captured + group)
  {
    assert ns[..k + 1][..k] == ns[..k];
    ViaStep(b, ns[..k + 1], opponent);
  }
}
