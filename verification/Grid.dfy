/** Sudoku grids: cells, their rows, columns and boxes, and what a solution is. */
module Grid {
  import opened Sets

  type Board = seq<int>

  ghost predicate IsBoard(b: Board) {
    |b| == 81 && forall i | 0 <= i < 81 :: 0 <= b[i] <= 9
  }

  datatype Kind = Row | Column | Box

  /** The row, column or box of a cell. */
  function UnitOf(k: Kind, i: nat): (u: nat)
    requires i < 81
    ensures u < 9
  {
    match k
    case Row => i / 9
    case Column => i % 9
    case Box => i / 9 / 3 * 3 + i % 9 / 3
  }

  /** The p-th cell of a unit. */
  function CellAt(k: Kind, u: nat, p: nat): (i: nat)
    requires u < 9 && p < 9
    ensures i < 81
  {
    match k
    case Row => 9 * u + p
    case Column => 9 * p + u
    case Box => (u / 3 * 3 + p / 3) * 9 + (u % 3 * 3 + p % 3)
  }

  function PlaceOf(k: Kind, i: nat): (p: nat)
    requires i < 81
    ensures p < 9
  {
    match k
    case Row => i % 9
    case Column => i / 9
    case Box => i / 9 % 3 * 3 + i % 9 % 3
  }

  lemma Nines(r: nat, c: nat)
    requires c < 9
    ensures (9 * r + c) / 9 == r && (9 * r + c) % 9 == c
  {
  }

  lemma Threes(r: nat, c: nat)
    requires c < 3
    ensures (r * 3 + c) / 3 == r && (r * 3 + c) % 3 == c
  {
  }

  lemma UnitOfCellAt(k: Kind, u: nat, p: nat)
    requires u < 9 && p < 9
    ensures UnitOf(k, CellAt(k, u, p)) == u && PlaceOf(k, CellAt(k, u, p)) == p
  {
    match k
    case Row => Nines(u, p);
    case Column => Nines(p, u);
    case Box =>
      Nines(u / 3 * 3 + p / 3, u % 3 * 3 + p % 3);
      Threes(u / 3, p / 3);
      Threes(u % 3, p % 3);
  }

  lemma CellAtUnitOf(k: Kind, i: nat)
    requires i < 81
    ensures CellAt(k, UnitOf(k, i), PlaceOf(k, i)) == i
  {
    if k == Box {
      var r, c := i / 9, i % 9;
      Threes(r / 3, c / 3);
      Threes(r % 3, c % 3);
    }
  }

  /** Two cells that a solution must fill differently. */
  ghost predicate Peers(i: nat, j: nat) {
    i < 81 && j < 81 && i != j && exists k: Kind :: UnitOf(k, i) == UnitOf(k, j)
  }

  /** Every cell is filled and no two peers are equal. */
  ghost predicate Solution(g: Board) {
    && |g| == 81
    && (forall i | 0 <= i < 81 :: 1 <= g[i] <= 9)
    && (forall i: nat, j: nat | Peers(i, j) :: g[i] != g[j])
  }

  ghost predicate Extends(b: Board, g: Board) {
    |b| == 81 && |g| == 81 && forall i | 0 <= i < 81 && b[i] != 0 :: g[i] == b[i]
  }

  ghost predicate Solvable(b: Board) { exists g: Board :: Solution(g) && Extends(b, g) }

  /** Value v stands in unit u of the board. */
  ghost predicate Seen(b: Board, k: Kind, u: nat, v: int)
    requires |b| == 81
  {
    exists i: nat :: i < 81 && UnitOf(k, i) == u && b[i] == v
  }

  ghost predicate FilledIn(g: Board) {
    |g| == 81 && forall i | 0 <= i < 81 :: 1 <= g[i] <= 9
  }

  // ----- nine cells take nine values if and only if no value is taken twice -----

  ghost function ValuesOf(s: seq<int>): (t: set<int>) { set v | v in s }

  ghost predicate NoRepeat(s: seq<int>) { forall a, b | 0 <= a < b < |s| :: s[a] != s[b] }

  lemma {:induction false} CountValues(s: seq<int>)
    ensures |ValuesOf(s)| <= |s|
    ensures |ValuesOf(s)| == |s| <==> NoRepeat(s)
  {
    if s != [] {
      var n := |s| - 1;
      var t := s[..n];
      CountValues(t);
      if s[n] in t {
        assert ValuesOf(s) == ValuesOf(t);
        var a :| 0 <= a < n && t[a] == s[n];
        assert s[a] == s[n];
      } else {
        assert ValuesOf(s) == ValuesOf(t) + {s[n]};
        if NoRepeat(t) {
          assert NoRepeat(s);
        }
        if NoRepeat(s) {
          assert NoRepeat(t);
        }
      }
    }
  }

  ghost function Digits(): (t: set<int>) { {1, 2, 3, 4, 5, 6, 7, 8, 9} }

  lemma Pigeons(s: seq<int>)
    requires |s| == 9 && forall a | 0 <= a < 9 :: 1 <= s[a] <= 9
    ensures NoRepeat(s) <==> forall v | 1 <= v <= 9 :: v in s
  {
    CountValues(s);
    assert |Digits()| == 9;
    assert forall v :: v in Digits() <==> 1 <= v <= 9;
    SubsetSize(ValuesOf(s), Digits());
    assert ValuesOf(s) == Digits() <==> forall v | 1 <= v <= 9 :: v in s by {
      if forall v | 1 <= v <= 9 :: v in s {
        assert ValuesOf(s) == Digits();
      }
      if ValuesOf(s) == Digits() {
        forall v | 1 <= v <= 9
          ensures v in s
        {
          assert v in ValuesOf(s);
        }
      }
    }
  }

  ghost function UnitValues(g: Board, k: Kind, u: nat): (s: seq<int>)
    requires |g| == 81 && u < 9
    ensures |s| == 9 && forall p | 0 <= p < 9 :: s[p] == g[CellAt(k, u, p)]
  {
    seq(9, p requires 0 <= p < 9 => g[CellAt(k, u, p)])
  }

  lemma SeenInUnit(g: Board, k: Kind, u: nat, v: int)
    requires |g| == 81 && u < 9
    ensures Seen(g, k, u, v) <==> v in UnitValues(g, k, u)
  {
    var s := UnitValues(g, k, u);
    if Seen(g, k, u, v) {
      var i: nat :| i < 81 && UnitOf(k, i) == u && g[i] == v;
      CellAtUnitOf(k, i);
      assert s[PlaceOf(k, i)] == v;
    }
    if v in s {
      var p :| 0 <= p < 9 && s[p] == v;
      UnitOfCellAt(k, u, p);
    }
  }

  lemma UnitNoRepeat(g: Board, k: Kind, u: nat)
    requires |g| == 81 && u < 9
    ensures NoRepeat(UnitValues(g, k, u))
            <==> forall i, j | 0 <= i < 81 && 0 <= j < 81 && i != j && UnitOf(k, i) == u && UnitOf(k, j) == u :: g[i] != g[j]
  {
    hide UnitOf, CellAt, PlaceOf;
    var s := UnitValues(g, k, u);
    if NoRepeat(s) {
      forall i, j | 0 <= i < 81 && 0 <= j < 81 && i != j && UnitOf(k, i) == u && UnitOf(k, j) == u
        ensures g[i] != g[j]
      {
        CellAtUnitOf(k, i);
        CellAtUnitOf(k, j);
        assert s[PlaceOf(k, i)] == g[i] && s[PlaceOf(k, j)] == g[j];
      }
    }
    if forall i, j | 0 <= i < 81 && 0 <= j < 81 && i != j && UnitOf(k, i) == u && UnitOf(k, j) == u :: g[i] != g[j] {
      forall a, b | 0 <= a < b < |s|
        ensures s[a] != s[b]
      {
        UnitOfCellAt(k, u, a);
        UnitOfCellAt(k, u, b);
      }
    }
  }

  ghost predicate UnitComplete(g: Board, k: Kind, u: nat)
    requires |g| == 81
  {
    forall v | 1 <= v <= 9 :: Seen(g, k, u, v)
  }

  /** A filled grid is a solution exactly when every unit shows every value. */
  lemma SolutionIffAllSeen(g: Board)
    requires FilledIn(g)
    ensures Solution(g) <==> forall k: Kind, u: nat | u < 9 :: UnitComplete(g, k, u)
  {
    if Solution(g) {
      forall k: Kind, u: nat | u < 9
        ensures UnitComplete(g, k, u)
      {
        UnitNoRepeat(g, k, u);
        forall i, j | 0 <= i < 81 && 0 <= j < 81 && i != j && UnitOf(k, i) == u && UnitOf(k, j) == u
          ensures g[i] != g[j]
        {
          assert Peers(i, j);
        }
        UnitPigeons(g, k, u);
      }
    }
    if forall k: Kind, u: nat | u < 9 :: UnitComplete(g, k, u) {
      forall i: nat, j: nat | Peers(i, j)
        ensures g[i] != g[j]
      {
        var k: Kind :| UnitOf(k, i) == UnitOf(k, j);
        UnitPigeons(g, k, UnitOf(k, i));
        UnitNoRepeat(g, k, UnitOf(k, i));
      }
    }
  }

  lemma UnitPigeons(g: Board, k: Kind, u: nat)
    requires FilledIn(g) && u < 9
    ensures UnitComplete(g, k, u) <==> NoRepeat(UnitValues(g, k, u))
  {
    var s := UnitValues(g, k, u);
    Pigeons(s);
    forall v | 1 <= v <= 9
      ensures Seen(g, k, u, v) <==> v in s
    {
      SeenInUnit(g, k, u, v);
    }
  }
}
