/** A sudoku as an exact cover problem.  The columns to cover are the empty cells and, for every
    row, column and box, the values that are still missing there; placing a value in an empty
    cell is a row that uses four of them. */
module Encoding {
  import opened Grid
  import opened ExactCover

  function Base(k: Kind): (n: int) {
    match k
    case Row => 100
    case Column => 200
    case Box => 300
  }

  /** The column "value v in unit u". */
  function NameOf(k: Kind, u: nat, v: int): (n: int) { Base(k) + u * 10 + v }

  lemma NameOfRange(k: Kind, u: nat, v: int)
    requires u < 9 && 1 <= v <= 9
    ensures 100 <= NameOf(k, u, v) < 400 && NameOf(k, u, v) % 10 == v
  {
  }

  lemma NameOfInjective(k: Kind, u: nat, v: int, k': Kind, u': nat, v': int)
    requires u < 9 && 1 <= v <= 9 && u' < 9 && 1 <= v' <= 9 && NameOf(k, u, v) == NameOf(k', u', v')
    ensures k == k' && u == u' && v == v'
  {
  }

  ghost predicate Wanted(b: Board, nm: int)
    requires |b| == 81
  {
    || (0 <= nm < 81 && b[nm] == 0)
    || exists k: Kind, u: nat, v: int :: u < 9 && 1 <= v <= 9 && !Seen(b, k, u, v) && nm == NameOf(k, u, v)
  }

  /** Value v may still be tried in cell i: it stands in no unit of i. */
  ghost predicate Candidate(b: Board, i: nat, v: int)
    requires |b| == 81
  {
    i < 81 && b[i] == 0 && 1 <= v <= 9 && forall k: Kind :: !Seen(b, k, UnitOf(k, i), v)
  }

  /** The columns that placing v in cell i uses. */
  ghost predicate Uses(i: nat, v: int, nm: int)
    requires i < 81
  {
    nm == i || exists k: Kind :: nm == NameOf(k, UnitOf(k, i), v)
  }

  /** A matrix whose columns carry names and whose rows carry a cell and a value.  Several rows
      may place the same value in the same cell; canon picks one of them. */
  datatype Named = Named(M: Matrix, H: set<nat>, name: map<nat, int>, cell: map<nat, nat>, val: map<nat, int>, canon: set<nat>)

  ghost predicate NamesMatch(e: Named, b: Board)
    requires |b| == 81
  {
    && (forall c | c in e.H :: c in e.name && Wanted(b, e.name[c]))
    && (forall nm | Wanted(b, nm) :: exists c :: c in e.H && c in e.name && e.name[c] == nm)
    && (forall c, d | c in e.H && d in e.H && c in e.name && d in e.name && e.name[c] == e.name[d] :: c == d)
  }

  ghost predicate RowMatches(e: Named, b: Board, x: nat)
    requires |b| == 81
  {
    && x in e.M && x in e.cell && x in e.val
    && Candidate(b, e.cell[x], e.val[x])
    && e.M[x] <= e.H
    && (forall c | c in e.H && c in e.name :: c in e.M[x] <==> Uses(e.cell[x], e.val[x], e.name[c]))
  }

  ghost predicate Encodes(e: Named, b: Board) {
    && |b| == 81
    && NamesMatch(e, b)
    && (forall x | x in e.M :: RowMatches(e, b, x))
    && (forall x | x in e.canon :: x in e.M)
    && (forall i: nat, v | Candidate(b, i, v) :: exists x :: x in e.canon && x in e.cell && x in e.val && e.cell[x] == i && e.val[x] == v)
    && (forall x, y | x in e.canon && y in e.canon && x in e.cell && y in e.cell && x in e.val && y in e.val
                      && e.cell[x] == e.cell[y] && e.val[x] == e.val[y] :: x == y)
  }

  /** g is the board b with the rows S written into it. */
  ghost predicate Written(e: Named, b: Board, S: set<nat>, g: Board) {
    && |b| == 81 && |g| == 81
    && (forall i | 0 <= i < 81 && b[i] != 0 :: g[i] == b[i])
    && (forall x | x in S && x in e.cell && x in e.val && e.cell[x] < 81 :: g[e.cell[x]] == e.val[x])
  }

  // ----- a cover is a solution -----

  lemma CoveredBy(e: Named, b: Board, S: set<nat>, nm: int) returns (x: nat)
    requires Encodes(e, b) && IsCover(e.M, e.H, S) && Wanted(b, nm)
    ensures x in S && RowMatches(e, b, x) && Uses(e.cell[x], e.val[x], nm)
  {
    var c :| c in e.H && c in e.name && e.name[c] == nm;
    x :| x in S && x in e.M && c in e.M[x];
  }

  lemma CoverFills(e: Named, b: Board, S: set<nat>, g: Board)
    requires IsBoard(b) && Encodes(e, b) && IsCover(e.M, e.H, S) && Written(e, b, S, g)
    ensures FilledIn(g)
  {
    forall i: int | 0 <= i < 81
      ensures 1 <= g[i] <= 9
    {
      if b[i] == 0 {
        var x := CoveredBy(e, b, S, i);
        assert e.cell[x] == i;
      }
    }
  }

  lemma CoverShows(e: Named, b: Board, S: set<nat>, g: Board, k: Kind, u: nat, v: int)
    requires Encodes(e, b) && IsCover(e.M, e.H, S) && Written(e, b, S, g)
    requires u < 9 && 1 <= v <= 9
    ensures Seen(g, k, u, v)
  {
    if Seen(b, k, u, v) {
      var i: nat :| i < 81 && UnitOf(k, i) == u && b[i] == v;
      assert g[i] == v;
    } else {
      var x := CoveredBy(e, b, S, NameOf(k, u, v));
      var i, w := e.cell[x], e.val[x];
      var k': Kind :| NameOf(k, u, v) == NameOf(k', UnitOf(k', i), w);
      NameOfInjective(k, u, v, k', UnitOf(k', i), w);
      assert g[i] == v;
    }
  }

  /** Every exact cover, written into the board, gives a solution; givens that clash leave
      columns that no choice of rows can cover, so they never lead here. */
  lemma CoverIsSolution(e: Named, b: Board, S: set<nat>, g: Board)
    requires IsBoard(b) && Encodes(e, b) && IsCover(e.M, e.H, S) && Written(e, b, S, g)
    ensures Solution(g) && Extends(b, g)
  {
    CoverFills(e, b, S, g);
    forall k: Kind, u: nat | u < 9
      ensures UnitComplete(g, k, u)
    {
      forall v | 1 <= v <= 9
        ensures Seen(g, k, u, v)
      {
        CoverShows(e, b, S, g, k, u, v);
      }
    }
    SolutionIffAllSeen(g);
  }

  // ----- a solution is a cover -----

  lemma SolutionCandidate(b: Board, g: Board, i: nat)
    requires Solution(g) && Extends(b, g) && i < 81 && b[i] == 0
    ensures Candidate(b, i, g[i])
  {
    forall k: Kind
      ensures !Seen(b, k, UnitOf(k, i), g[i])
    {
      if Seen(b, k, UnitOf(k, i), g[i]) {
        var j: nat :| j < 81 && UnitOf(k, j) == UnitOf(k, i) && b[j] == g[i];
        assert g[j] == b[j];
        assert Peers(i, j);
      }
    }
  }

  /** The rows that place the values of g in the empty cells. */
  ghost function RowsFor(e: Named, g: Board): (S: set<nat>)
    requires |g| == 81
  {
    set x | x in e.canon && x in e.M && x in e.cell && x in e.val && e.cell[x] < 81 && g[e.cell[x]] == e.val[x]
  }

  lemma RowsForDisjoint(e: Named, b: Board, g: Board, x: nat, y: nat)
    requires Encodes(e, b) && Solution(g) && x in RowsFor(e, g) && y in RowsFor(e, g) && x != y
    ensures e.M[x] !! e.M[y]
  {
    assert RowMatches(e, b, x) && RowMatches(e, b, y);
    var i, j, v, w := e.cell[x], e.cell[y], e.val[x], e.val[y];
    assert i != j;
    if c :| c in e.M[x] && c in e.M[y] {
      var nm := e.name[c];
      assert Uses(i, v, nm) && Uses(j, w, nm);
      if nm != i {
        var k: Kind :| nm == NameOf(k, UnitOf(k, i), v);
        if nm != j {
          var k': Kind :| nm == NameOf(k', UnitOf(k', j), w);
          NameOfInjective(k, UnitOf(k, i), v, k', UnitOf(k', j), w);
          assert Peers(i, j);
        }
      }
    }
  }

  lemma RowFor(e: Named, b: Board, g: Board, i: nat) returns (x: nat)
    requires Encodes(e, b) && Solution(g) && Extends(b, g) && i < 81 && b[i] == 0
    ensures x in RowsFor(e, g) && RowMatches(e, b, x) && e.cell[x] == i && e.val[x] == g[i]
  {
    SolutionCandidate(b, g, i);
    x :| x in e.canon && x in e.cell && x in e.val && e.cell[x] == i && e.val[x] == g[i];
  }

  lemma RowsForCover(e: Named, b: Board, g: Board, c: nat) returns (x: nat)
    requires Encodes(e, b) && Solution(g) && Extends(b, g) && c in e.H
    ensures x in RowsFor(e, g) && x in e.M && c in e.M[x]
  {
    var nm := e.name[c];
    if 0 <= nm < 81 && b[nm] == 0 {
      x := RowFor(e, b, g, nm);
      assert Uses(e.cell[x], e.val[x], nm);
    } else {
      var k: Kind, u: nat, v: int :| u < 9 && 1 <= v <= 9 && !Seen(b, k, u, v) && nm == NameOf(k, u, v);
      SolutionIffAllSeen(g);
      assert UnitComplete(g, k, u) && Seen(g, k, u, v);
      var i: nat :| i < 81 && UnitOf(k, i) == u && g[i] == v;
      assert b[i] == 0;
      x := RowFor(e, b, g, i);
      assert Uses(e.cell[x], e.val[x], nm);
    }
  }

  /** Every solution that extends the givens is an exact cover. */
  lemma SolutionIsCover(e: Named, b: Board, g: Board)
    requires Encodes(e, b) && Solution(g) && Extends(b, g)
    ensures IsCover(e.M, e.H, RowsFor(e, g))
  {
    var S := RowsFor(e, g);
    forall x | x in S
      ensures x in e.M && e.M[x] <= e.H
    {
      assert RowMatches(e, b, x);
    }
    forall x, y | x in S && y in S && x != y
      ensures x in e.M && y in e.M && e.M[x] !! e.M[y]
    {
      RowsForDisjoint(e, b, g, x, y);
    }
    forall c | c in e.H
      ensures exists x :: x in S && x in e.M && c in e.M[x]
    {
      var x := RowsForCover(e, b, g, c);
    }
  }
}
