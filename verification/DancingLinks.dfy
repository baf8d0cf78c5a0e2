/** The dancing-links solver: the mesh in one array of nodes, covered and uncovered in place. */
module DancingLinks {
  import opened Mesh
  import opened Covering
  import opened ExactCover
  import opened RowNames
  import opened Grid
  import opened Encoding
  import opened MeshBuilding
  import opened MeshSudoku
  import Rings

  const MAX_NODES := 1 + 81 * 4 + 9 * 9 * 9 * 4

  // ----- the mesh of the solver is an instance of a toroidal mesh -----

  /** The other three nodes of the row of x. */
  ghost function Three(m: Nodes, x: nat): (s: seq<nat>)
    requires InRange(m) && x < |m|
  {
    [Mate(m, x, 1), Mate(m, x, 2), Mate(m, x, 3)]
  }

  ghost function RingsOf(m: Nodes, rows: seq<nat>): (rings: seq<seq<nat>>)
    requires InRange(m) && forall k | 0 <= k < |rows| :: rows[k] < |m|
    ensures |rings| == |rows| && forall k | 0 <= k < |rows| :: rings[k] == Three(m, rows[k])
  {
    seq(|rows|, k requires 0 <= k < |rows| => Three(m, rows[k]))
  }

  lemma {:induction false} FlatIsOthers(m: Nodes, rows: seq<nat>)
    requires InRange(m) && forall k | 0 <= k < |rows| :: rows[k] < |m|
    ensures Rings.Flat(RingsOf(m, rows)) == Others(m, rows)
  {
    if rows != [] {
      var n := |rows| - 1;
      FlatIsOthers(m, rows[..n]);
      assert RingsOf(m, rows)[..n] == RingsOf(m, rows[..n]);
      OthersAt(m, rows, n);
      OthersPrefix(m, rows);
      hide Mate;
      assert Others(m, rows) == Others(m, rows[..n]) + Three(m, rows[n]);
    }
  }

  lemma OthersPrefix(m: Nodes, rows: seq<nat>)
    requires InRange(m) && rows != [] && forall k | 0 <= k < |rows| :: rows[k] < |m|
    ensures Others(m, rows)[..3 * (|rows| - 1)] == Others(m, rows[..|rows| - 1])
  {
    hide Mate;
    var n := |rows| - 1;
    forall q | 0 <= q < 3 * n
      ensures Others(m, rows)[q] == Others(m, rows[..n])[q]
    {
      assert q / 3 < n;
    }
  }

  ghost function LinkedNodes(m: Nodes, h: nat, n: nat, H: set<nat>): (P: set<nat>)
    requires InRange(m) && n <= |m|
  {
    H + Live(m, h, n, H)
  }

  lemma ActiveLinked(m: Nodes, h: nat, n: nat, H: set<nat>)
    requires Active(m, h, n, H)
    ensures Rings.Linked(m, LinkedNodes(m, h, n, H))
  {
    hide RowNode, Mate, Members, HLinkedAt;
    var P, L := LinkedNodes(m, h, n, H), Live(m, h, n, H);
    forall x | x in P
      ensures x < |m| && Rings.LinkedIn(m, P, x)
    {
      if x in L {
        assert m[x].col in Cols(m, x);
      }
      assert In(m, H, L, x);
      assert LinkedAt(m, H, L, x);
    }
  }

  lemma ThreeIsRing(m: Nodes, h: nat, n: nat, x: nat)
    requires Shape(m, h, n) && h < x < n
    ensures Rings.Ring(m, x, Three(m, x))
  {
    RowFacts(m, h, n, x);
    var s := Three(m, x);
    hide RowNode;
    assert Mate(m, x, 0) == x;
    forall i | 0 <= i < 3
      ensures Rings.RingAt(m, x, s, i)
    {
      assert i == 0 || i == 1 || i == 2;
    }
  }

  lemma ActiveRange(m: Nodes, h: nat, n: nat, H: set<nat>)
    requires Active(m, h, n, H)
    ensures InRange(m) && n <= |m| && forall c | c in H :: c < |m|
  {
    hide RowNode, LinkedAt, HLinkedAt;
  }

  /** Every mesh that the solver meets is well-formed at each of its columns. */
  lemma ActiveWellFormed(m: Nodes, h: nat, n: nat, H: set<nat>, c: nat)
    requires Active(m, h, n, H) && c in H
    ensures c < |m|
    ensures Rings.WellFormed(m, LinkedNodes(m, h, n, H), c, DownFrom(m, c), RingsOf(m, DownFrom(m, c)))
    ensures Rings.Flat(RingsOf(m, DownFrom(m, c))) == ToRemove(m, c)
  {
    hide LinkedAt, Shape, DownFrom, Rings.Linked, Rings.Flat, Rings.RowOf, Chain, Members, Live, LinkedNodes;
    var L, rows := Live(m, h, n, H), DownFrom(m, c);
    HeaderOf(m, h, n, H, L, c);
    HeaderNeighbours(m, H, c);
    ActiveLinked(m, h, n, H);
    DownChain(m, h, n, H, L, c);
    ColumnIs(m, h, n, H, L, c);
    FlatIsOthers(m, rows);
    forall k | 0 <= k < |rows|
      ensures Rings.RowOf(m, LinkedNodes(m, h, n, H), c, rows[k], Three(m, rows[k]))
    {
      ActiveRow(m, h, n, H, c, rows[k]);
    }
  }

  lemma HeaderNeighbours(m: Nodes, H: set<nat>, c: nat)
    requires Horizontal(m, H) && c in H
    ensures m[m[c].right].left == c && m[m[c].left].right == c
    ensures (m[c].left == 0 || m[c].left in H) && (m[c].right == 0 || m[c].right in H)
  {
    assert HLinkedAt(m, H, c);
  }

  lemma ActiveRow(m: Nodes, h: nat, n: nat, H: set<nat>, c: nat, x: nat)
    requires Shape(m, h, n) && Horizontal(m, H) && c in H && forall d | d in H :: 1 <= d <= h
    requires h < x < n && m[x].col == c && x in Live(m, h, n, H)
    ensures Rings.RowOf(m, LinkedNodes(m, h, n, H), c, x, Three(m, x))
  {
    hide Horizontal, Rings.Ring, RowNode, Mate, Live;
    HeaderNeighbours(m, H, c);
    ThreeIsRing(m, h, n, x);
    RowFacts(m, h, n, x);
    LiveRow(m, h, n, H, x, 1);
    LiveRow(m, h, n, H, x, 2);
    LiveRow(m, h, n, H, x, 3);
  }

  lemma HeaderOf(m: Nodes, h: nat, n: nat, K: set<nat>, P: set<nat>, c: nat)
    requires Vertical(m, h, n, K, P) && c in K
    ensures Shape(m, h, n) && c < |m| && m[c].col == c
  {
    hide LinkedAt, RowNode;
  }

  // ----- the search -----

  /** The header list is empty exactly when the root is its own neighbour. */
  lemma NothingLeft(m: Nodes, H: set<nat>)
    requires Horizontal(m, H)
    ensures m[0].left == 0 <==> H == {}
  {
    assert HLinkedAt(m, H, 0);
    if m[0].left == 0 {
      assert forall y | y in H :: y <= 0;
    }
  }

  /** Column c is covered in the search, but its list can still be read. */
  lemma SearchStage(m: Nodes, h: nat, n: nat, H: set<nat>, c: nat, k: nat)
    requires Active(m, h, n, H) && c in H && k <= |DownFrom(m, c)|
    ensures c < |m| && forall q | 0 <= q < |DownFrom(m, c)| :: DownFrom(m, c)[q] != c && h < DownFrom(m, c)[q] < n
    ensures var m1, rows := Covering.Cover(m, c), DownFrom(m, c);
            && m1[c].down == (if |rows| == 0 then c else rows[0])
            && (k > 0 ==> m1[rows[k - 1]].down == (if k < |rows| then rows[k] else c))
  {
    hide Live, LinkedAt, HLinkedAt, RowNode, Covering.Cover;
    var rows := DownFrom(m, c);
    CoverActive(m, h, n, H, c);
    HeaderOf(m, h, n, H, Live(m, h, n, H), c);
    ColumnIs(m, h, n, H, Live(m, h, n, H), c);
    DownChain(m, h, n, H, Live(m, h, n, H), c);
    if k > 0 {
      assert ChainAt(m, c, rows, c, k - 1);
    }
  }

  /** The row at hand covers c and three more columns that are still to be covered. */
  lemma RowAtHand(m: Nodes, h: nat, n: nat, H: set<nat>, c: nat, k: nat)
    requires Active(m, h, n, H) && c in H && k < |DownFrom(m, c)|
    ensures var row := DownFrom(m, c)[k];
            && h < row < n && m[row].col == c && Cols(m, row) <= H && c in Cols(m, row)
            && forall a | 1 <= a < 4 :: m[Mate(m, row, a)].col in H - {c}
  {
    hide Vertical, Horizontal;
    var P, row := Live(m, h, n, H), DownFrom(m, c)[k];
    ColumnIs(m, h, n, H, P, c);
    RowFacts(m, h, n, row);
    forall a | 1 <= a < 4
      ensures m[Mate(m, row, a)].col in H - {c}
    {
      LiveRow(m, h, n, H, row, a);
      assert m[Mate(m, row, 0)].col != m[Mate(m, row, a)].col;
    }
  }

  /** When no row of column c starts a cover, there is none. */
  lemma SearchFails(m: Nodes, h: nat, n: nat, H: set<nat>, c: nat)
    requires Active(m, h, n, H) && c in H
    requires forall k | 0 <= k < |DownFrom(m, c)| :: !Coverable(MatrixOf(m, h, n), H - Cols(m, DownFrom(m, c)[k]))
    ensures !Coverable(MatrixOf(m, h, n), H)
  {
    hide Vertical, Horizontal, Coverable, Live, MatrixOf;
    if Coverable(MatrixOf(m, h, n), H) {
      var y := SomeRowStarts(m, h, n, H, c);
      ColumnIs(m, h, n, H, Live(m, h, n, H), c);
    }
  }

  /** A row and a cover of what it leaves over make a cover. */
  lemma SearchSucceeds(M: Matrix, H: set<nat>, x: nat, s: seq<nat>)
    requires x in M && M[x] != {} && M[x] <= H && IsCover(M, H - M[x], SetOf(s))
    ensures IsCover(M, H, SetOf([x] + s))
  {
    AddRow(M, H, x, SetOf(s));
    assert SetOf([x] + s) == SetOf(s) + {x};
  }

  lemma NoMates(m: Nodes, row: nat)
    requires InRange(m) && row < |m|
    ensures CoverMates(m, row, 0) == m
  {
  }

  lemma MatesStage(m: Nodes, h: nat, n: nat, H: set<nat>, row: nat, t: nat)
    requires Active(m, h, n, H) && h < row < n && t <= 3
    requires forall a | 1 <= a < 4 :: m[Mate(m, row, a)].col in H
    ensures InRange(m) && row < |m|
    ensures var m' := CoverMates(m, row, t);
            && |m'| == |m|
            && Active(m', h, n, Rest(m, H, row, t))
            && (forall a | 0 <= a < 4 :: m'[Mate(m, row, a)].right == Mate(m, row, if a == 3 then 0 else a + 1))
            && (forall a | 0 <= a < 4 :: m'[Mate(m, row, a)].left == Mate(m, row, if a == 0 then 3 else a - 1))
            && (forall a | 0 <= a < 4 :: m'[Mate(m, row, a)].col == m[Mate(m, row, a)].col)
            && (t < 3 ==> m[Mate(m, row, t + 1)].col in Rest(m, H, row, t))
            && (t < 3 ==> CoverMates(m, row, t + 1) == Covering.Cover(m', m[Mate(m, row, t + 1)].col))
    ensures Mate(m, row, 0) == row && forall a | 0 <= a < 4 :: Mate(m, row, a) == row <==> a == 0
  {
    hide Vertical, Horizontal, Covering.Cover, RowNode;
    CoverMatesActive(m, h, n, H, row, t);
    RowFacts(m, h, n, row);
    if t < 3 {
      NextColumn(m, h, n, H, row, t + 1);
    }
  }

  /** The mesh can be searched, and the rows on the stack can be read back. */
  ghost predicate Ready(m: Nodes, h: nat, n: nat, stack: seq<nat>) {
    Shape(m, h, n) && AllNamed(m, h, n) && forall k | 0 <= k < |stack| :: h < stack[k] < n
  }

  lemma ReadyCongruent(m: Nodes, m': Nodes, h: nat, n: nat, stack: seq<nat>, row: nat)
    requires Ready(m, h, n, stack) && SameRows(m, m', h) && InRange(m') && h < row < n
    ensures Ready(m', h, n, stack + [row])
  {
    hide WellNamed, RowNode;
    ShapeCongruent(m, m', h, n);
    NamesCongruent(m, m', h, n);
  }

  /** Choosing the k-th row of column c leads to the search for the columns it leaves over. */
  lemma Descend(m: Nodes, h: nat, n: nat, H: set<nat>, c: nat, k: nat, stack: seq<nat>)
    requires Active(m, h, n, H) && c in H && k < |DownFrom(m, c)| && Ready(m, h, n, stack)
    ensures var m1, row := Covering.Cover(m, c), DownFrom(m, c)[k];
            && row < |m|
            && var m2 := CoverMates(m1, row, 3);
            && Active(m1, h, n, H - {c}) && h < row < n
            && (forall a | 1 <= a < 4 :: m1[Mate(m1, row, a)].col in H - {c})
            && Active(m2, h, n, H - Cols(m, row)) && H - Cols(m, row) < H
            && SameRows(m, m2, h) && MatrixOf(m2, h, n) == MatrixOf(m, h, n)
            && Ready(m2, h, n, stack + [row])
  {
    hide Vertical, Horizontal, Covering.Cover, RowNode, Live, WellNamed, Cols, CoverMates, Rest, MatrixOf;
    var m1, row := Covering.Cover(m, c), DownFrom(m, c)[k];
    CoverActive(m, h, n, H, c);
    RowAtHand(m, h, n, H, c, k);
    RowCongruent(m, m1, h, n, row);
    CoverMatesActive(m1, h, n, H - {c}, row, 3);
    RestAll(m1, H, row);
    var m2 := CoverMates(m1, row, 3);
    MatrixCongruent(m, m2, h, n);
    ReadyCongruent(m, m2, h, n, stack, row);
  }

  /** What the deeper search found, seen from the mesh before the choice. */
  lemma Ascend(m: Nodes, m2: Nodes, h: nat, n: nat, H: set<nat>, c: nat, k: nat, stack: seq<nat>, s: seq<nat>, board: seq<int>)
    requires Active(m, h, n, H) && c in H && k < |DownFrom(m, c)| && Ready(m, h, n, stack)
    requires SameRows(m, m2, h) && InRange(m2) && |board| == 81
    requires DownFrom(m, c)[k] < |m| && IsCover(MatrixOf(m, h, n), H - Cols(m, DownFrom(m, c)[k]), SetOf(s))
    ensures var s' := [DownFrom(m, c)[k]] + s;
            && IsCover(MatrixOf(m, h, n), H, SetOf(s'))
            && stack + [DownFrom(m, c)[k]] + s == stack + s'
            && Readable(m, stack + s') && Readable(m2, stack + s')
            && Fill(board, m2, stack + s') == Fill(board, m, stack + s')
  {
    hide Active, Live, Fill, CellOf, Cols, MatrixOf, InRange, AllNamed, SameRows;
    var row := DownFrom(m, c)[k];
    RowAtHand(m, h, n, H, c, k);
    MatrixAt(m, h, n, row);
    SearchSucceeds(MatrixOf(m, h, n), H, row, s);
    forall i | 0 <= i < |s|
      ensures h < s[i] < n
    {
      assert s[i] in SetOf(s);
      MatrixRange(m, h, n, s[i]);
    }
    var all := stack + ([row] + s);
    assert forall i | 0 <= i < |all| :: h < all[i] < n;
    FillCongruent(board, m, m2, h, n, all);
  }

  lemma MatrixAt(m: Nodes, h: nat, n: nat, x: nat)
    requires InRange(m) && n <= |m| && h < x < n
    ensures x in MatrixOf(m, h, n) && MatrixOf(m, h, n)[x] == Cols(m, x) && Cols(m, x) != {}
  {
    assert m[x].col in Cols(m, x);
  }

  lemma MatrixRange(m: Nodes, h: nat, n: nat, x: nat)
    requires InRange(m) && n <= |m| && x in MatrixOf(m, h, n)
    ensures h < x < n
  {
  }

  /** Where a search stands when it starts. */
  lemma SearchStart(m: Nodes, h: nat, n: nat, H: set<nat>, stack: seq<nat>)
    requires Active(m, h, n, H)
    ensures 0 < |m| && n <= |m| && InRange(m) && Horizontal(m, H) && (m[0].left == 0 <==> H == {})
    ensures forall c | c in H :: c < |m|
    ensures SetOf([]) == {} && IsCover(MatrixOf(m, h, n), {}, SetOf([])) && stack + [] == stack
  {
    hide Vertical, MatrixOf;
    NothingLeft(m, H);
    EmptyCover(MatrixOf(m, h, n));
    assert SetOf([]) == {};
  }

  lemma NamesDiffer(u: nat, v: int)
    requires u < 9 && 1 <= v <= 9
    ensures NameOf(Row, u, v) != NameOf(Column, u, v) && NameOf(Row, u, v) != NameOf(Box, u, v)
    ensures NameOf(Column, u, v) != NameOf(Box, u, v)
  {
  }

  // ----- which values the givens use -----

  /** Value v stands in unit u, in a cell before cell n. */
  ghost predicate SeenBelow(b: Board, k: Kind, u: nat, v: int, n: nat)
    requires |b| == 81 && n <= 81
  {
    exists i: nat :: i < n && UnitOf(k, i) == u && b[i] == v
  }

  ghost predicate Marked(t: array2<bool>, b: Board, k: Kind, n: nat)
    requires |b| == 81 && n <= 81
    reads t
  {
    && t.Length0 == 81 && t.Length1 == 10
    && forall u: nat, v | u < 9 && 0 <= v < 10 :: t[u, v] <==> SeenBelow(b, k, u, v, n)
  }

  lemma MarkNext(b: Board, k: Kind, n: nat, u: nat, v: int)
    requires |b| == 81 && n < 81
    ensures SeenBelow(b, k, u, v, n + 1) <==> SeenBelow(b, k, u, v, n) || (UnitOf(k, n) == u && b[n] == v)
  {
    hide UnitOf;
  }

  lemma MarksSeen(t: array2<bool>, b: Board, k: Kind, u: nat, v: int)
    requires |b| == 81 && Marked(t, b, k, 81) && u < 9 && 0 <= v < 10
    ensures t.Length0 == 81 && t.Length1 == 10 && (t[u, v] <==> Seen(b, k, u, v))
  {
    hide UnitOf;
  }

  lemma CandidateIff(b: Board, i: nat, v: int)
    requires |b| == 81 && i < 81 && b[i] == 0 && 1 <= v <= 9
    ensures UnitOf(Row, i) == i / 9 && UnitOf(Column, i) == i % 9 && UnitOf(Box, i) == i / 9 / 3 * 3 + i % 9 / 3
    ensures Candidate(b, i, v) <==> !Seen(b, Row, UnitOf(Row, i), v) && !Seen(b, Column, UnitOf(Column, i), v) && !Seen(b, Box, UnitOf(Box, i), v)
  {
    hide Seen;
    forall k: Kind
      ensures Seen(b, k, UnitOf(k, i), v) ==> Seen(b, Row, UnitOf(Row, i), v) || Seen(b, Column, UnitOf(Column, i), v) || Seen(b, Box, UnitOf(Box, i), v)
    {
    }
  }

  lemma MarksTell(rows: array2<bool>, cols: array2<bool>, boxes: array2<bool>, b: Board, i: nat, v: int)
    requires |b| == 81 && i < 81 && b[i] == 0 && 1 <= v <= 9
    requires Marked(rows, b, Row, 81) && Marked(cols, b, Column, 81) && Marked(boxes, b, Box, 81)
    ensures rows.Length0 == cols.Length0 == boxes.Length0 == 81 && rows.Length1 == cols.Length1 == boxes.Length1 == 10
    ensures rows[i / 9, v] || cols[i % 9, v] || boxes[i / 9 / 3 * 3 + i % 9 / 3, v] <==> !Candidate(b, i, v)
  {
    hide Seen, Marked, Candidate, UnitOf;
    MarksSeen(rows, b, Row, i / 9, v);
    MarksSeen(cols, b, Column, i % 9, v);
    MarksSeen(boxes, b, Box, i / 9 / 3 * 3 + i % 9 / 3, v);
    CandidateIff(b, i, v);
  }

  lemma CandidateWanted(b: Board, i: nat, v: int)
    requires |b| == 81 && Candidate(b, i, v)
    ensures i < 81 && 1 <= v <= 9 && Wanted(b, i) && forall k: Kind :: Wanted(b, NameOf(k, UnitOf(k, i), v))
  {
    hide Seen;
  }

  lemma Finished(m: Nodes, h: nat, n: nat, cols: seq<nat>, done: set<int>, made: seq<(nat, int)>, b: Board)
    requires RowsBuilt(m, h, n, cols, done, made) && Complete(b, done, made)
    ensures Active(m, h, n, Range(1, h + 1)) && Ready(m, h, n, [])
    ensures forall x: nat | h < x < n :: CellOf(m, x) >= 0
    ensures Encodes(NamedOf(m, h, n), b)
  {
    hide RowsBuilt, Complete, Vertical, Horizontal, RowNode, WellNamed, CellOf, NamedOf, Encodes;
    BuiltRange(m, h, n, cols, done, made);
    MeshReady(m, h, n, cols, done, made, b);
    CellsNatural(m, h, n);
    MeshEncodes(m, h, n, cols, done, made, b);
  }

  /** The tables of the values that the givens show in every row, column and box. */
  method GivenTables(b: array<int>) returns (rows: array2<bool>, cols: array2<bool>, boxes: array2<bool>)
    requires b.Length == 81 && IsBoard(b[..])
    ensures fresh(rows) && fresh(cols) && fresh(boxes)
    ensures Marked(rows, b[..], Row, 81) && Marked(cols, b[..], Column, 81) && Marked(boxes, b[..], Box, 81)
  {
    rows := new bool[81, 10]((_, _) => false);
    cols := new bool[81, 10]((_, _) => false);
    boxes := new bool[81, 10]((_, _) => false);
    for i := 0 to 81
      invariant Marked(rows, b[..], Row, i) && Marked(cols, b[..], Column, i) && Marked(boxes, b[..], Box, i)
    {
      var row := i / 9;
      var col := i % 9;
      var box := row / 3 * 3 + col / 3;
      var val := b[i];
      rows[row, val] := true;
      cols[col, val] := true;
      boxes[box, val] := true;
      forall k: Kind, u: nat, v: int
        ensures SeenBelow(b[..], k, u, v, i + 1) <==> SeenBelow(b[..], k, u, v, i) || (UnitOf(k, i) == u && b[i] == v)
      {
        MarkNext(b[..], k, i, u, v);
      }
      hide SeenBelow;
    }
  }

  lemma NodeCount()
    ensures MAX_NODES == 3241
  {
  }

  lemma MadeNone(b: Board)
    requires |b| == 81
    ensures MadeBefore(b, 0, 1, [])
  {
    hide Seen;
  }

  class Dance {
    const inout: array<int>
    const nodes: array<Node>
    const columns: array<nat>
    var stack: seq<nat>
    var cur: nat
    ghost var heads: nat

    // ----- building the mesh -----

    /** put_left */
    method PutLeft(old': nat, nnew: nat)
      requires InRange(nodes[..]) && old' < nodes.Length && nnew < nodes.Length
      modifies nodes
      ensures nodes[..] == MeshBuilding.PutLeft(old(nodes[..]), old', nnew)
    {
      nodes[nnew] := nodes[nnew].(left := nodes[old'].left);
      nodes[nnew] := nodes[nnew].(right := old');
      nodes[nodes[old'].left] := nodes[nodes[old'].left].(right := nnew);
      nodes[old'] := nodes[old'].(left := nnew);
    }

    /** put_up */
    method PutUp(old': nat, nnew: nat)
      requires InRange(nodes[..]) && old' < nodes.Length && nnew < nodes.Length
      modifies nodes
      ensures nodes[..] == MeshBuilding.PutUp(old(nodes[..]), old', nnew)
    {
      nodes[nnew] := nodes[nnew].(up := nodes[old'].up);
      nodes[nnew] := nodes[nnew].(down := old');
      nodes[nodes[old'].up] := nodes[nodes[old'].up].(down := nnew);
      nodes[old'] := nodes[old'].(up := nnew);
      nodes[old'] := nodes[old'].(size := nodes[old'].size + 1);
      nodes[nnew] := nodes[nnew].(col := old');
    }

    /** append_column, with new_column inlined; the source's assert is the second precondition. */
    method AppendColumn(nm: int, ghost done: set<int>)
      requires columns.Length == 400 && Heads(nodes[..], cur, columns[..], done) && cur < nodes.Length
      requires 0 <= nm < 400 && nm !in done
      modifies this`cur, nodes, columns
      ensures cur == old(cur) + 1
      ensures Heads(nodes[..], cur, columns[..], done + {nm})
    {
      assert columns[..][nm] == 0;
      HeadsGrow(nodes[..], cur, columns[..], done, nm);
      hide Heads;
      var c := cur;
      cur := cur + 1;
      nodes[c] := Single(c, nm, c);
      PutLeft(0, c);
      columns[nm] := c;
    }

    /** new_row */
    method NewRow(nm: int) returns (r: nat)
      requires columns.Length == 400 && 0 <= nm < 400 && columns[nm] < nodes.Length && cur < nodes.Length && InRange(nodes[..])
      modifies this`cur, nodes
      ensures r == old(cur) && cur == old(cur) + 1
      ensures nodes[..] == WithNode(old(nodes[..]), r, nm, columns[nm])
    {
      r := cur;
      cur := cur + 1;
      nodes[r] := Single(r, nm, columns[nm]);
      PutUp(columns[nm], r);
    }

    /** The four nodes of one placement, tied into a row. */
    method AddRow(i: nat, v: int, ghost done: set<int>, ghost made: seq<(nat, int)>)
      requires RowsBuilt(nodes[..], heads, cur, columns[..], done, made) && cur + 3 < nodes.Length && i < 81 && 1 <= v <= 9
      requires i in done && forall k: Kind :: NameOf(k, UnitOf(k, i), v) in done
      modifies this`cur, nodes
      ensures cur == old(cur) + 4
      ensures RowsBuilt(nodes[..], heads, cur, columns[..], done, made + [(i, v)])
    {
      hide *;
      RowSteps(nodes[..], heads, cur, columns[..], done, made, i, v);
      var n0 := NewRow(i);
      var nr := NewRow(NameOf(Row, UnitOf(Row, i), v));
      var nc := NewRow(NameOf(Column, UnitOf(Column, i), v));
      var nb := NewRow(NameOf(Box, UnitOf(Box, i), v));
      PutLeft(n0, nr);
      PutLeft(n0, nc);
      PutLeft(n0, nb);
    }

    /** The columns of the empty cells. */
    method AppendCellColumns() returns (ghost done: set<int>)
      requires inout.Length == 81 && columns.Length == 400 && inout as object != columns
      requires nodes.Length == MAX_NODES && cur == 1 && Heads(nodes[..], cur, columns[..], {})
      modifies this`cur, nodes, columns
      ensures 1 <= cur <= 82 && Heads(nodes[..], cur, columns[..], done) && DoneBefore(inout[..], 0, 1, done)
    {
      done := {};
      for i := 0 to 81
        invariant 1 <= cur <= 1 + i && Heads(nodes[..], cur, columns[..], done)
        invariant forall nm :: nm in done <==> 0 <= nm < i && inout[nm] == 0
      {
        hide Heads;
        if inout[i] == 0 {
          AppendColumn(i, done);
          done := done + {i};
        }
      }
    }

    /** The column of value v in unit u, unless a given shows it. */
    method AppendIfMissing(seen: bool, k: Kind, u: nat, v: int, ghost b: Board, ghost done: set<int>)
      requires |b| == 81 && (seen <==> Seen(b, k, u, v)) && u < 9 && 1 <= v <= 9
      requires columns.Length == 400 && Heads(nodes[..], cur, columns[..], done) && cur < nodes.Length
      requires NameOf(k, u, v) !in done
      modifies this`cur, nodes, columns
      ensures old(cur) <= cur <= old(cur) + 1
      ensures Heads(nodes[..], cur, columns[..], done + Missing(b, k, u, v))
    {
      hide Heads, Seen;
      if seen {
        assert done + Missing(b, k, u, v) == done;
      } else {
        AppendColumn(NameOf(k, u, v), done);
        assert done + Missing(b, k, u, v) == done + {NameOf(k, u, v)};
      }
    }

    /** The columns of the values that are missing in a row, column or box. */
    method AppendUnitColumns(rows: array2<bool>, cols: array2<bool>, boxes: array2<bool>, ghost cells: set<int>)
      returns (ghost done: set<int>)
      requires inout.Length == 81 && columns.Length == 400 && inout as object != columns && nodes.Length == MAX_NODES
      requires Marked(rows, inout[..], Row, 81) && Marked(cols, inout[..], Column, 81) && Marked(boxes, inout[..], Box, 81)
      requires 1 <= cur <= 82 && Heads(nodes[..], cur, columns[..], cells) && DoneBefore(inout[..], 0, 1, cells)
      modifies this`cur, nodes, columns
      ensures 1 <= cur <= 325 && Heads(nodes[..], cur, columns[..], done) && DoneBefore(inout[..], 9, 1, done)
    {
      ghost var b := inout[..];
      done := cells;
      hide *;
      for i := 0 to 9
        invariant 1 <= cur <= 82 + 27 * i && Heads(nodes[..], cur, columns[..], done) && DoneBefore(b, i, 1, done)
      {
        for v := 1 to 10
          invariant 1 <= cur <= 82 + 27 * i + 3 * (v - 1)
          invariant Heads(nodes[..], cur, columns[..], done) && DoneBefore(b, i, v, done)
        {
          DoneNext(b, i, v, done);
          NotYetDone(b, i, v, done, Row);
          NotYetDone(b, i, v, done, Column);
          NotYetDone(b, i, v, done, Box);
          NamesDiffer(i, v);
          MarksSeen(rows, b, Row, i, v);
          MarksSeen(cols, b, Column, i, v);
          MarksSeen(boxes, b, Box, i, v);
          AppendIfMissing(rows[i, v], Row, i, v, b, done);
          done := done + Missing(b, Row, i, v);
          AppendIfMissing(cols[i, v], Column, i, v, b, done);
          done := done + Missing(b, Column, i, v);
          AppendIfMissing(boxes[i, v], Box, i, v, b, done);
          done := done + Missing(b, Box, i, v);
        }
        DoneNextUnit(b, i, done);
      }
    }

    /** The row that places v in cell i, unless a given rules it out. */
    method TryRow(i: nat, v: int, seen: bool, ghost b: Board, ghost done: set<int>, ghost made: seq<(nat, int)>)
      returns (ghost made': seq<(nat, int)>)
      requires |b| == 81 && (seen <==> !Candidate(b, i, v)) && i < 81 && 1 <= v <= 9
      requires RowsBuilt(nodes[..], heads, cur, columns[..], done, made) && cur + 3 < nodes.Length
      requires (forall nm :: nm in done <==> Wanted(b, nm)) && MadeBefore(b, i, v, made)
      modifies this`cur, nodes
      ensures cur <= old(cur) + 4
      ensures RowsBuilt(nodes[..], heads, cur, columns[..], done, made') && MadeBefore(b, i, v + 1, made')
    {
      hide *;
      MadeNext(b, i, v, made);
      if !seen {
        CandidateWanted(b, i, v);
        AddRow(i, v, done, made);
        made' := made + [(i, v)];
      } else {
        made' := made;
      }
    }

    /** The rows of one empty cell. */
    method AddCellRows(i: nat, rows: array2<bool>, cols: array2<bool>, boxes: array2<bool>, ghost b: Board,
                       ghost done: set<int>, ghost before: seq<(nat, int)>) returns (ghost made: seq<(nat, int)>)
      requires nodes.Length == MAX_NODES && i < 81 && cur <= 325 + 36 * i && |b| == 81 && b[i] == 0
      requires Marked(rows, b, Row, 81) && Marked(cols, b, Column, 81) && Marked(boxes, b, Box, 81)
      requires RowsBuilt(nodes[..], heads, cur, columns[..], done, before) && MadeBefore(b, i, 1, before)
      requires forall nm :: nm in done <==> Wanted(b, nm)
      modifies this`cur, nodes
      ensures cur <= 325 + 36 * (i + 1)
      ensures RowsBuilt(nodes[..], heads, cur, columns[..], done, made) && MadeBefore(b, i, 10, made)
    {
      hide *;
      NodeCount();
      made := before;
      var row := i / 9;
      var col := i % 9;
      var box := row / 3 * 3 + col / 3;
      for v := 1 to 10
        invariant cur <= 325 + 36 * i + 4 * (v - 1)
        invariant RowsBuilt(nodes[..], heads, cur, columns[..], done, made) && MadeBefore(b, i, v, made)
      {
        MarksTell(rows, cols, boxes, b, i, v);
        made := TryRow(i, v, rows[row, v] || cols[col, v] || boxes[box, v], b, done, made);
      }
    }

    /** All rows, cell by cell and value by value. */
    method AddRows(rows: array2<bool>, cols: array2<bool>, boxes: array2<bool>, ghost done: set<int>)
      returns (ghost made: seq<(nat, int)>)
      requires inout.Length == 81 && nodes.Length == MAX_NODES && cur <= 325
      requires Marked(rows, inout[..], Row, 81) && Marked(cols, inout[..], Column, 81) && Marked(boxes, inout[..], Box, 81)
      requires RowsBuilt(nodes[..], heads, cur, columns[..], done, [])
      requires forall nm :: nm in done <==> Wanted(inout[..], nm)
      modifies this`cur, nodes
      ensures RowsBuilt(nodes[..], heads, cur, columns[..], done, made) && MadeBefore(inout[..], 81, 1, made)
    {
      hide *;
      ghost var b := inout[..];
      made := [];
      MadeNone(b);
      for i := 0 to 81
        invariant cur <= 325 + 36 * i
        invariant RowsBuilt(nodes[..], heads, cur, columns[..], done, made) && MadeBefore(b, i, 1, made)
      {
        if inout[i] == 0 {
          made := AddCellRows(i, rows, cols, boxes, b, done, made);
        }
        MadeNextCell(b, i, made);
      }
    }

    constructor (board: array<int>)
      requires board.Length == 81 && IsBoard(board[..])
      ensures inout == board && stack == [] && fresh(nodes) && fresh(columns)
      ensures Active(nodes[..], heads, cur, Range(1, heads + 1)) && Ready(nodes[..], heads, cur, [])
      ensures forall x: nat | heads < x < cur :: CellOf(nodes[..], x) >= 0
      ensures Encodes(NamedOf(nodes[..], heads, cur), board[..])
    {
      inout := board;
      nodes := new Node[MAX_NODES](_ => Single(0, 0, 0));
      columns := new nat[400](_ => 0);
      stack := [];
      cur := 1;
      heads := 0;
      new;
      HeadsStart(nodes[..], columns[..]);
      Build();
    }

    /** The body of the constructor once the root stands. */
    method Build()
      requires inout.Length == 81 && IsBoard(inout[..]) && columns.Length == 400 && inout as object != columns
      requires nodes.Length == MAX_NODES && cur == 1 && Heads(nodes[..], cur, columns[..], {})
      modifies this`cur, this`heads, nodes, columns
      ensures Active(nodes[..], heads, cur, Range(1, heads + 1)) && Ready(nodes[..], heads, cur, [])
      ensures forall x: nat | heads < x < cur :: CellOf(nodes[..], x) >= 0
      ensures Encodes(NamedOf(nodes[..], heads, cur), inout[..])
    {
      hide *;
      ghost var b := inout[..];
      var rows, cols, boxes := GivenTables(inout);
      ghost var cells := AppendCellColumns();
      ghost var done := AppendUnitColumns(rows, cols, boxes, cells);
      heads := cur - 1;
      DoneAll(b, done);
      RowsStart(nodes[..], heads, columns[..], done);
      ghost var made := AddRows(rows, cols, boxes, done);
      MadeAll(b, done, made);
      Finished(nodes[..], heads, cur, columns[..], done, made, b);
    }

    // ----- covering -----

    /** cover */
    method Cover(c: nat, ghost H: set<nat>)
      requires Active(nodes[..], heads, cur, H) && c in H
      modifies nodes
      ensures nodes[..] == Covering.Cover(old(nodes[..]), c)
      ensures Active(nodes[..], heads, cur, H - {c})
    {
      hide Active, Rings.WellFormed, Rings.Flat, DownFrom, ToRemove, UnlinkAll, UnlinkHeader, RingsOf, LinkedNodes;
      ghost var m := nodes[..];
      ActiveRange(m, heads, cur, H);
      ActiveWellFormed(m, heads, cur, H, c);
      CoverActive(m, heads, cur, H, c);
      ghost var rows := DownFrom(m, c);
      Rings.Cover(nodes, c, LinkedNodes(m, heads, cur, H), rows, RingsOf(m, rows));
    }

    /** uncover, after the cover of c that led from the mesh m to the present one. */
    method Uncover(c: nat, ghost m: Nodes, ghost H: set<nat>)
      requires Active(m, heads, cur, H) && c in H && nodes[..] == Covering.Cover(m, c)
      modifies nodes
      ensures nodes[..] == m
    {
      hide Active, Rings.WellFormed, Rings.Flat, DownFrom, ToRemove, UnlinkAll, UnlinkHeader, RingsOf, LinkedNodes;
      ActiveRange(m, heads, cur, H);
      ActiveWellFormed(m, heads, cur, H, c);
      ghost var rows := DownFrom(m, c);
      Rings.Uncover(nodes, c, m, LinkedNodes(m, heads, cur, H), rows, RingsOf(m, rows));
    }

    /** The first column of least size, or the first of size at most one; the list is in increasing order. */
    method GetMinColumn(ghost H: set<nat>) returns (c: nat)
      requires Horizontal(nodes[..], H) && H != {}
      ensures c in H
      ensures nodes[c].size <= 1 || forall x | x in H :: nodes[c].size <= nodes[x].size
      ensures forall x | x in H && x < c :: nodes[x].size > nodes[c].size
    {
      ghost var m := nodes[..];
      assert HLinkedAt(m, H, 0);
      ghost var some :| some in H;
      c := nodes[0].right;
      var minSize := nodes[c].size;
      if minSize > 1 {
        assert HLinkedAt(m, H, c);
        var cc := nodes[c].right;
        while cc != 0
          invariant cc in H || cc == 0
          invariant c in H && minSize == nodes[c].size && minSize > 1
          invariant forall x | x in H && (cc == 0 || x < cc) :: minSize <= nodes[x].size
          invariant forall x | x in H && x < c :: nodes[x].size > minSize
          invariant cc == 0 || c < cc
          decreases if cc == 0 then 0 else nodes.Length - cc
        {
          if minSize > nodes[cc].size {
            c := cc;
            minSize := nodes[cc].size;
            if minSize <= 1 {
              break;
            }
          }
          assert HLinkedAt(m, H, cc);
          cc := nodes[cc].right;
        }
      }
    }

    /** The loop of solve that covers the other columns of the chosen row. */
    method CoverOthers(row: nat, ghost H: set<nat>)
      requires Active(nodes[..], heads, cur, H) && heads < row < cur
      requires forall a | 1 <= a < 4 :: nodes[Mate(nodes[..], row, a)].col in H
      modifies nodes
      ensures nodes[..] == CoverMates(old(nodes[..]), row, 3)
    {
      ghost var m := nodes[..];
      MatesStage(m, heads, cur, H, row, 0);
      hide *;
      var j := nodes[row].right;
      ghost var t := 0;
      while j != row
        invariant 0 <= t <= 3
        invariant j == Mate(m, row, if t == 3 then 0 else t + 1)
        invariant nodes[..] == CoverMates(m, row, t)
        decreases 3 - t
      {
        MatesStage(m, heads, cur, H, row, t);
        Cover(nodes[j].col, Rest(m, H, row, t));
        t := t + 1;
        MatesStage(m, heads, cur, H, row, t);
        j := nodes[j].right;
      }
    }

    /** The loop of solve that uncovers them again. */
    method UncoverOthers(row: nat, ghost m: Nodes, ghost H: set<nat>)
      requires Active(m, heads, cur, H) && heads < row < cur
      requires forall a | 1 <= a < 4 :: m[Mate(m, row, a)].col in H
      requires nodes[..] == CoverMates(m, row, 3)
      modifies nodes
      ensures nodes[..] == m
    {
      hide *;
      MatesStage(m, heads, cur, H, row, 3);
      NoMates(m, row);
      var j := nodes[row].left;
      ghost var t := 3;
      while j != row
        invariant 0 <= t <= 3
        invariant j == Mate(m, row, t)
        invariant nodes[..] == CoverMates(m, row, t)
        decreases t
      {
        MatesStage(m, heads, cur, H, row, t);
        t := t - 1;
        MatesStage(m, heads, cur, H, row, t);
        Uncover(nodes[j].col, CoverMates(m, row, t), Rest(m, H, row, t));
        j := nodes[j].left;
      }
    }

    /** The walk along a row that reads its cell and its value. */
    method Decode(x: nat) returns (cell: int, val: int)
      requires Shape(nodes[..], heads, cur) && heads < x < cur && WellNamed(nodes[..], x)
      ensures cell == CellOf(nodes[..], x) && val == ValueOf(nodes[..], x)
    {
      ghost var m := nodes[..];
      RowFacts(m, heads, cur, x);
      ghost var a := CellIndex(m, x);
      hide Shape, WellNamed, CellOf, ValueOf;
      cell, val := -1, -1;
      var n := x;
      ghost var t := 0;
      while cell == -1 || val == -1
        invariant 0 <= t <= 4 && n == (if t == 4 then x else Mate(m, x, t))
        invariant cell == if t > a then m[Mate(m, x, a)].name else -1
        invariant val == -1 <==> t == 0 || (t == 1 && a == 0)
        invariant t <= (if a == 0 then 2 else a + 1)
        invariant val != -1 ==> val == m[Mate(m, x, if a == 0 then 1 else if t > a then a - 1 else t - 1)].name % 10
        decreases 4 - t
      {
        if nodes[n].name < 100 {
          cell := nodes[n].name;
        } else {
          val := nodes[n].name % 10;
        }
        n := nodes[n].right;
        t := t + 1;
      }
    }

    /** The loop of solve that writes the chosen rows into the board. */
    method WriteBoard()
      requires inout.Length == 81 && Ready(nodes[..], heads, cur, stack)
      modifies inout
      ensures Readable(nodes[..], stack) && inout[..] == Fill(old(inout[..]), nodes[..], stack)
    {
      ghost var m := nodes[..];
      StackReadable(m, heads, cur, stack);
      for i := 0 to |stack|
        invariant nodes[..] == m && Readable(m, stack) && Shape(m, heads, cur) && AllNamed(m, heads, cur)
        invariant inout[..] == Fill(old(inout[..]), m, stack[..i])
      {
        assert WellNamed(m, stack[i]);
        var cell, val := Decode(stack[i]);
        inout[cell] := val;
        assert stack[..i + 1][..i] == stack[..i];
      }
      assert stack[..|stack|] == stack;
    }

    /** Searches for rows that cover the columns H exactly.  On failure nothing has changed and
        there are none; on success they are on the stack and written into the board. */
    method Solve(ghost H: set<nat>) returns (ok: bool, ghost s: seq<nat>)
      requires inout.Length == 81 && Ready(nodes[..], heads, cur, stack) && Active(nodes[..], heads, cur, H)
      modifies this`stack, nodes, inout
      ensures !ok ==> nodes[..] == old(nodes[..]) && stack == old(stack) && inout[..] == old(inout[..])
      ensures !ok ==> !Coverable(old(MatrixOf(nodes[..], heads, cur)), H)
      ensures ok ==> stack == old(stack) + s && IsCover(old(MatrixOf(nodes[..], heads, cur)), H, SetOf(s))
      ensures ok ==> Readable(old(nodes[..]), stack) && inout[..] == Fill(old(inout[..]), old(nodes[..]), stack)
      decreases H
    {
      hide *;
      ghost var m := nodes[..];
      SearchStart(m, heads, cur, H, stack);
      ghost var M := MatrixOf(m, heads, cur);
      if nodes[0].left == 0 {
        WriteBoard();
        ok, s := true, [];
        return;
      }
      var col := GetMinColumn(H);
      Cover(col, H);
      ghost var m1, rows := nodes[..], DownFrom(m, col);
      SearchStage(m, heads, cur, H, col, 0);
      var row := nodes[col].down;
      ghost var k := 0;
      while row != col
        invariant 0 <= k <= |rows|
        invariant row == if k < |rows| then rows[k] else col
        invariant nodes[..] == m1 && stack == old(stack) && inout[..] == old(inout[..])
        invariant forall i | 0 <= i < k :: !Coverable(M, H - Cols(m, rows[i]))
        decreases |rows| - k
      {
        ghost var H' := H - Cols(m, row);
        Descend(m, heads, cur, H, col, k, stack);
        stack := stack + [row];
        CoverOthers(row, H - {col});
        ghost var m2 := nodes[..];
        ok, s := Solve(H');
        if ok {
          Ascend(m, m2, heads, cur, H, col, k, old(stack), s, old(inout[..]));
          s := [row] + s;
          return;
        }
        stack := stack[..|stack| - 1];
        UncoverOthers(row, m1, H - {col});
        k := k + 1;
        SearchStage(m, heads, cur, H, col, k);
        row := nodes[row].down;
      }
      Uncover(col, m, H);
      SearchFails(m, heads, cur, H, col);
      ok, s := false, [];
    }
  }

  /** A sudoku with a solution is an exact cover problem with one. */
  lemma SolvableIsCoverable(m: Nodes, h: nat, n: nat, b: Board)
    requires InRange(m) && h < n <= |m| && forall x: nat | h < x < n :: CellOf(m, x) >= 0
    requires IsBoard(b) && Encodes(NamedOf(m, h, n), b)
    requires Solvable(b)
    ensures Coverable(MatrixOf(m, h, n), Range(1, h + 1))
  {
    hide CellOf, ValueOf, Encodes, Cols, Solution;
    var g: Board :| Solution(g) && Extends(b, g);
    SolutionIsCover(NamedOf(m, h, n), b, g);
    assert IsCover(MatrixOf(m, h, n), Range(1, h + 1), RowsFor(NamedOf(m, h, n), g));
  }

  lemma CoverSolves(m: Nodes, h: nat, n: nat, b: Board, s: seq<nat>)
    requires InRange(m) && h < n <= |m| && forall x: nat | h < x < n :: CellOf(m, x) >= 0
    requires IsBoard(b) && Encodes(NamedOf(m, h, n), b)
    requires IsCover(MatrixOf(m, h, n), Range(1, h + 1), SetOf(s)) && Readable(m, s)
    ensures Solution(Fill(b, m, s)) && Extends(b, Fill(b, m, s))
  {
    hide CellOf, ValueOf, Encodes, Cols, Solution, Fill, Written;
    FillWrites(m, h, n, b, s);
    CoverIsSolution(NamedOf(m, h, n), b, SetOf(s), Fill(b, m, s));
  }

  /** The dancing-links solver decides every board, whether its givens clash or not. */
  method SolveSudoku(board: array<int>) returns (ok: bool)
    requires board.Length == 81 && IsBoard(board[..])
    modifies board
    ensures ok <==> Solvable(old(board[..]))
    ensures ok ==> Solution(board[..]) && Extends(old(board[..]), board[..])
    ensures !ok ==> board[..] == old(board[..])
  {
    var d := new Dance(board);
    ghost var b, m, h, n := board[..], d.nodes[..], d.heads, d.cur;
    assert InRange(m) && h < n <= |m|;
    hide Active, Ready, CellOf, Encodes, NamedOf, Coverable, MatrixOf, IsCover, Readable, Fill, Solution, IsBoard, InRange;
    ghost var s;
    ok, s := d.Solve(Range(1, d.heads + 1));
    if ok {
      assert d.stack == s;
      CoverSolves(m, h, n, b, s);
    } else if Solvable(b) {
      SolvableIsCoverable(m, h, n, b);
    }
  }
}
