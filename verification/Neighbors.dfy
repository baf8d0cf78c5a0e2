/** The table of neighbors: for every cell its twenty peers, in increasing order. */
module Neighbors {
  import opened Grid

  /** Cells (row, col) and (y, x) share a row, a column or a box. */
  predicate Adjacent(row: nat, col: nat, y: nat, x: nat) {
    y == row || x == col || (y / 3 == row / 3 && x / 3 == col / 3)
  }

  /** Peers, by coordinates. */
  lemma PeersByCoordinates(i: nat, j: nat)
    requires i < 81 && j < 81
    ensures Peers(i, j) <==> i != j && Adjacent(i / 9, i % 9, j / 9, j % 9)
  {
    assert UnitOf(Row, i) == i / 9 && UnitOf(Row, j) == j / 9;
    assert UnitOf(Column, i) == i % 9 && UnitOf(Column, j) == j % 9;
    SameBox(i / 9, i % 9, j / 9, j % 9);
    assert UnitOf(Box, i) == i / 9 / 3 * 3 + i % 9 / 3 && UnitOf(Box, j) == j / 9 / 3 * 3 + j % 9 / 3;
    hide UnitOf;
    if i != j && Adjacent(i / 9, i % 9, j / 9, j % 9) {
      var k := if j / 9 == i / 9 then Row else if j % 9 == i % 9 then Column else Box;
      assert UnitOf(k, i) == UnitOf(k, j);
    }
  }

  lemma SameBox(row: nat, col: nat, y: nat, x: nat)
    requires row < 9 && col < 9 && y < 9 && x < 9
    ensures row / 3 * 3 + col / 3 == y / 3 * 3 + x / 3 <==> row / 3 == y / 3 && col / 3 == x / 3
  {
  }

  /** The peers of cell c below n, in increasing order. */
  ghost function PeersBelow(c: nat, n: nat): (s: seq<nat>)
    requires c < 81 && n <= 81
    ensures forall i | 0 <= i < |s| :: s[i] < n && Peers(c, s[i])
    ensures forall p: nat | p < n && Peers(c, p) :: p in s
    ensures forall i, j | 0 <= i < j < |s| :: s[i] < s[j]
  {
    if n == 0 then []
    else if Peers(c, n - 1) then PeersBelow(c, n - 1) + [n - 1]
    else PeersBelow(c, n - 1)
  }

  // ----- there are twenty -----

  /** How many of the first x cells of row y are peers of (row, col). */
  ghost function CountInRow(row: nat, col: nat, y: nat, x: nat): (k: nat) {
    if x == 0 then 0
    else CountInRow(row, col, y, x - 1)
         + (if Adjacent(row, col, y, x - 1) && !(y == row && x - 1 == col) then 1 else 0)
  }

  lemma RowCount(row: nat, col: nat, y: nat)
    requires row < 9 && col < 9 && y < 9
    ensures CountInRow(row, col, y, 9) == if y == row then 8 else if y / 3 == row / 3 then 3 else 1
  {
    forall x: nat | x < 9
      ensures CountInRow(row, col, y, x + 1) == CountInRow(row, col, y, x)
              + (if Adjacent(row, col, y, x) && !(y == row && x == col) then 1 else 0)
    {
    }
    hide CountInRow;
    CountZero(row, col, y);
    var t := CountInRow(row, col, y, 9);
    assert t == Bit(row, col, y, 0) + Bit(row, col, y, 1) + Bit(row, col, y, 2) + Bit(row, col, y, 3) + Bit(row, col, y, 4)
                + Bit(row, col, y, 5) + Bit(row, col, y, 6) + Bit(row, col, y, 7) + Bit(row, col, y, 8);
    BitSum(row, col, y);
  }

  lemma CountZero(row: nat, col: nat, y: nat)
    ensures CountInRow(row, col, y, 0) == 0
  {
  }

  ghost function Bit(row: nat, col: nat, y: nat, x: nat): (b: nat) {
    if Adjacent(row, col, y, x) && !(y == row && x == col) then 1 else 0
  }

  lemma BitSum(row: nat, col: nat, y: nat)
    requires row < 9 && col < 9 && y < 9
    ensures Bit(row, col, y, 0) + Bit(row, col, y, 1) + Bit(row, col, y, 2) + Bit(row, col, y, 3) + Bit(row, col, y, 4)
            + Bit(row, col, y, 5) + Bit(row, col, y, 6) + Bit(row, col, y, 7) + Bit(row, col, y, 8)
            == if y == row then 8 else if y / 3 == row / 3 then 3 else 1
  {
    assert col == 0 || col == 1 || col == 2 || col == 3 || col == 4 || col == 5 || col == 6 || col == 7 || col == 8;
  }

  lemma {:induction false} BelowInRow(c: nat, y: nat, x: nat)
    requires c < 81 && y < 9 && x <= 9
    ensures |PeersBelow(c, 9 * y + x)| == |PeersBelow(c, 9 * y)| + CountInRow(c / 9, c % 9, y, x)
  {
    if x != 0 {
      BelowInRow(c, y, x - 1);
      Nines(y, x - 1);
      PeersByCoordinates(c, 9 * y + x - 1);
    }
  }

  ghost function CountRows(row: nat, y: nat): (k: nat) {
    if y == 0 then 0 else CountRows(row, y - 1) + (if y - 1 == row then 8 else if (y - 1) / 3 == row / 3 then 3 else 1)
  }

  lemma {:induction false} BelowRows(c: nat, y: nat)
    requires c < 81 && y <= 9
    ensures |PeersBelow(c, 9 * y)| == CountRows(c / 9, y)
  {
    if y != 0 {
      BelowRows(c, y - 1);
      BelowInRow(c, y - 1, 9);
      RowCount(c / 9, c % 9, y - 1);
    }
  }

  lemma RowsTotal(row: nat)
    requires row < 9
    ensures CountRows(row, 9) == 20
  {
    assert CountRows(row, 3) == if row < 3 then 14 else 3;
    assert CountRows(row, 6) == if row < 3 then 17 else if row < 6 then 17 else 6;
  }

  /** The row of the table for cell c. */
  ghost function NeighborsOf(c: nat): (s: seq<nat>)
    requires c < 81
    ensures |s| == 20
    ensures forall i | 0 <= i < 20 :: s[i] < 81 && Peers(c, s[i])
    ensures forall p: nat | Peers(c, p) :: p in s
    ensures forall i, j | 0 <= i < j < 20 :: s[i] < s[j]
  {
    BelowRows(c, 9);
    RowsTotal(c / 9);
    PeersBelow(c, 81)
  }

  // ----- building the table -----

  lemma {:induction false} BelowGrows(c: nat, n: nat, n': nat)
    requires c < 81 && n <= n' <= 81
    ensures PeersBelow(c, n) <= PeersBelow(c, n')
  {
    if n < n' {
      BelowGrows(c, n, n' - 1);
    }
  }

  /** There is room for one more peer. */
  lemma RoomLeft(c: nat, n: nat)
    requires c < 81 && n < 81
    ensures |PeersBelow(c, n)| <= 20 && (Peers(c, n) ==> |PeersBelow(c, n)| < 20)
    ensures PeersBelow(c, n + 1) == if Peers(c, n) then PeersBelow(c, n) + [n] else PeersBelow(c, n)
  {
    BelowGrows(c, n, 81);
    BelowGrows(c, n + 1, 81);
    assert |NeighborsOf(c)| == 20;
  }

  ghost predicate Marks(t: array2<bool>, row: nat, col: nat)
    reads t
  {
    && t.Length0 == 9 && t.Length1 == 9
    && forall y: nat, x: nat | y < 9 && x < 9 :: t[y, x] <==> Adjacent(row, col, y, x)
  }

  /** mark_adjacent, on a table that starts all false. */
  method MarkAdjacent(row: nat, col: nat) returns (adjacent: array2<bool>)
    requires row < 9 && col < 9
    ensures fresh(adjacent) && Marks(adjacent, row, col)
  {
    adjacent := new bool[9, 9]((_, _) => false);
    for i := 0 to 9
      invariant forall y: nat, x: nat | y < 9 && x < 9 :: adjacent[y, x] <==> (y == row && x < i) || (x == col && y < i)
    {
      adjacent[row, i] := true;
      adjacent[i, col] := true;
    }
    var top := row / 3 * 3;
    var left := col / 3 * 3;
    adjacent[top, left] := true;
    adjacent[top, left + 1] := true;
    adjacent[top, left + 2] := true;
    adjacent[top + 1, left] := true;
    adjacent[top + 1, left + 1] := true;
    adjacent[top + 1, left + 2] := true;
    adjacent[top + 2, left] := true;
    adjacent[top + 2, left + 1] := true;
    adjacent[top + 2, left + 2] := true;
  }

  /** Row c of the table holds the first n of its peers' scan. */
  ghost predicate Collected(t: array2<nat>, c: nat, n: nat)
    requires c < 81 && n <= 81
    reads t
  {
    && t.Length0 == 81 && t.Length1 == 20 && |PeersBelow(c, n)| <= 20
    && forall k | 0 <= k < |PeersBelow(c, n)| :: t[c, k] == PeersBelow(c, n)[k]
  }

  /** collect_neighbors: its asserts on the number of neighbors hold. */
  method CollectNeighbors(adjacent: array2<bool>, row: nat, col: nat, t: array2<nat>)
    requires row < 9 && col < 9 && Marks(adjacent, row, col) && t.Length0 == 81 && t.Length1 == 20
    modifies t
    ensures Collected(t, row * 9 + col, 81)
    ensures forall c: nat, k: nat | c < 81 && k < 20 && c != row * 9 + col :: t[c, k] == old(t[c, k])
  {
    var me := row * 9 + col;
    var n := 0;
    assert PeersBelow(me, 0) == [];
    hide PeersBelow, Peers;
    for y := 0 to 9
      invariant Collected(t, me, 9 * y) && n == |PeersBelow(me, 9 * y)|
      invariant forall c: nat, k: nat | c < 81 && k < 20 && c != me :: t[c, k] == old(t[c, k])
    {
      n := CollectRow(adjacent, row, col, t, y, n);
    }
    assert n == 20 by { TableRow(me); }
  }

  lemma TableRow(c: nat)
    requires c < 81
    ensures NeighborsOf(c) == PeersBelow(c, 81) && |PeersBelow(c, 81)| == 20
  {
    assert |NeighborsOf(c)| == 20;
  }

  /** The next peer goes into the table. */
  method StoreNeighbor(t: array2<nat>, me: nat, i: nat, n: nat)
    requires me < 81 && i < 81 && Collected(t, me, i) && n == |PeersBelow(me, i)| < 20
    requires PeersBelow(me, i + 1) == PeersBelow(me, i) + [i]
    modifies t
    ensures Collected(t, me, i + 1)
    ensures forall c: nat, k: nat | c < 81 && k < 20 && c != me :: t[c, k] == old(t[c, k])
  {
    hide PeersBelow;
    t[me, n] := i;
  }

  lemma NothingStored(t: array2<nat>, me: nat, i: nat)
    requires me < 81 && i < 81 && Collected(t, me, i) && PeersBelow(me, i + 1) == PeersBelow(me, i)
    ensures Collected(t, me, i + 1)
  {
    hide PeersBelow;
  }

  /** The scan of row y. */
  method CollectRow(adjacent: array2<bool>, row: nat, col: nat, t: array2<nat>, y: nat, n0: nat) returns (n: nat)
    requires row < 9 && col < 9 && y < 9 && Marks(adjacent, row, col)
    requires Collected(t, row * 9 + col, 9 * y) && n0 == |PeersBelow(row * 9 + col, 9 * y)|
    requires t.Length0 == 81 && t.Length1 == 20
    modifies t
    ensures Collected(t, row * 9 + col, 9 * (y + 1)) && n == |PeersBelow(row * 9 + col, 9 * (y + 1))|
    ensures forall c: nat, k: nat | c < 81 && k < 20 && c != row * 9 + col :: t[c, k] == old(t[c, k])
  {
    hide PeersBelow, Peers, Collected, Adjacent;
    var me := row * 9 + col;
    n := n0;
    for x := 0 to 9
      invariant Collected(t, me, 9 * y + x) && n == |PeersBelow(me, 9 * y + x)|
      invariant forall c: nat, k: nat | c < 81 && k < 20 && c != me :: t[c, k] == old(t[c, k])
    {
      ScanCell(row, col, y, x);
      if adjacent[y, x] && !(y == row && x == col) {
        StoreNeighbor(t, me, 9 * y + x, n);
        n := n + 1;
      } else {
        NothingStored(t, me, 9 * y + x);
      }
    }
  }

  lemma ScanCell(row: nat, col: nat, y: nat, x: nat)
    requires row < 9 && col < 9 && y < 9 && x < 9
    ensures var me, i := row * 9 + col, 9 * y + x;
            && (Peers(me, i) <==> Adjacent(row, col, y, x) && !(y == row && x == col))
            && (Peers(me, i) ==> |PeersBelow(me, i)| < 20)
            && PeersBelow(me, i + 1) == if Peers(me, i) then PeersBelow(me, i) + [i] else PeersBelow(me, i)
  {
    RoomLeft(row * 9 + col, 9 * y + x);
    Nines(row, col);
    Nines(y, x);
    PeersByCoordinates(row * 9 + col, 9 * y + x);
  }

  /** The whole table is right. */
  ghost predicate IsTable(t: array2<nat>)
    reads t
  {
    && t.Length0 == 81 && t.Length1 == 20
    && forall c: nat, i: nat | c < 81 && i < 20 :: t[c, i] == NeighborsOf(c)[i]
  }

  /** init_neighbors */
  method InitNeighbors() returns (t: array2<nat>)
    ensures fresh(t) && IsTable(t)
  {
    t := new nat[81, 20]((_, _) => 0);
    for row := 0 to 9
      invariant forall c: nat, i: nat | c < 9 * row && i < 20 :: t[c, i] == NeighborsOf(c)[i]
    {
      for col := 0 to 9
        invariant forall c: nat, i: nat | c < 9 * row + col && i < 20 :: t[c, i] == NeighborsOf(c)[i]
      {
        var adjacent := MarkAdjacent(row, col);
        CollectNeighbors(adjacent, row, col, t);
        TableRow(9 * row + col);
        hide PeersBelow, NeighborsOf;
      }
    }
  }

  // ----- checking a solution -----

  /** std::count(occurs, occurs + 10, 1) */
  method CountOnes(occurs: array<nat>) returns (n: nat)
    requires occurs.Length == 10
    ensures n <= 10 && (n == 10 <==> forall v | 0 <= v < 10 :: occurs[v] == 1)
    ensures occurs[0] != 1 ==> (n == 9 <==> forall v | 1 <= v < 10 :: occurs[v] == 1)
  {
    n := 0;
    ghost var misses: nat := 0;
    for v := 0 to 10
      invariant n + misses == v
      invariant misses == 0 <==> forall w | 0 <= w < v :: occurs[w] == 1
      invariant occurs[0] != 1 && v > 0 ==> misses >= 1 && (misses == 1 <==> forall w | 1 <= w < v :: occurs[w] == 1)
    {
      if occurs[v] == 1 {
        n := n + 1;
      } else {
        misses := misses + 1;
      }
    }
  }

  /** Each digit once: no value repeats. */
  lemma OnceEach(s: seq<int>)
    requires |s| == 9 && forall a | 0 <= a < 9 :: 1 <= s[a] <= 9
    ensures (forall v | 1 <= v < 10 :: multiset(s)[v] == 1) <==> NoRepeat(s)
  {
    Pigeons(s);
    RepeatsCount(s);
    if forall v | 1 <= v < 10 :: multiset(s)[v] == 1 {
      forall v | 1 <= v <= 9
        ensures v in s
      {
        assert v in multiset(s);
      }
    }
    if NoRepeat(s) {
      forall v | 1 <= v < 10
        ensures multiset(s)[v] == 1
      {
        assert v in s;
        assert v in multiset(s);
      }
    }
  }

  lemma {:induction false} RepeatsCount(s: seq<int>)
    ensures NoRepeat(s) ==> forall v | v in s :: multiset(s)[v] <= 1
  {
    if s != [] && NoRepeat(s) {
      var n := |s| - 1;
      assert s == s[..n] + [s[n]];
      RepeatsCount(s[..n]);
      assert s[n] !in s[..n];
      assert multiset(s) == multiset(s[..n]) + multiset{s[n]};
    }
  }

  method UnitSolved(board: array<int>, k: Kind, u: nat) returns (ok: bool)
    requires board.Length == 81 && FilledIn(board[..]) && u < 9
    ensures ok <==> UnitComplete(board[..], k, u)
  {
    ghost var s := UnitValues(board[..], k, u);
    var occurs := new nat[10](_ => 0);
    for p := 0 to 9
      invariant forall v | 0 <= v < 10 :: occurs[v] == multiset(s[..p])[v]
    {
      var val := board[CellAt(k, u, p)];
      assert s[..p + 1] == s[..p] + [val];
      occurs[val] := occurs[val] + 1;
    }
    assert s[..9] == s;
    OnceEach(s);
    UnitPigeons(board[..], k, u);
    assert 0 !in s;
    var n := CountOnes(occurs);
    ok := n == 9;
  }

  method UnitsSolved(board: array<int>, k: Kind) returns (ok: bool)
    requires board.Length == 81 && FilledIn(board[..])
    ensures ok <==> forall u: nat | u < 9 :: UnitComplete(board[..], k, u)
  {
    for u := 0 to 9
      invariant forall w: nat | w < u :: UnitComplete(board[..], k, w)
    {
      hide UnitComplete;
      var one := UnitSolved(board, k, u);
      if !one {
        return false;
      }
    }
    return true;
  }

  /** solved: rows, then columns, then boxes. */
  method Solved(board: array<int>) returns (ok: bool)
    requires board.Length == 81 && FilledIn(board[..])
    ensures ok <==> Solution(board[..])
  {
    hide UnitComplete, Solution, FilledIn;
    SolutionIffAllSeen(board[..]);
    ok := UnitsSolved(board, Row);
    if !ok {
      return;
    }
    ok := UnitsSolved(board, Column);
    if !ok {
      return;
    }
    ok := UnitsSolved(board, Box);
    forall k: Kind, u: nat | u < 9
      ensures ok ==> UnitComplete(board[..], k, u)
    {
      assert k == Row || k == Column || k == Box;
    }
  }
}
