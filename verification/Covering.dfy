/** Covering a column, as a value: which lists are right before and after, and why the
    steps of a cover can be taken back one by one. */
module Covering {
  import opened Mesh
  import opened ExactCover

  /** The nodes of the rows whose four columns are all in H. */
  ghost function Live(m: Nodes, h: nat, n: nat, H: set<nat>): (P: set<nat>)
    requires InRange(m) && n <= |m|
  {
    set x: nat | h < x < n && Cols(m, x) <= H
  }

  /** H are the columns still to be covered: the header list holds H, and the list of every
      column in H holds the rows that use no column outside H. */
  ghost predicate Active(m: Nodes, h: nat, n: nat, H: set<nat>) {
    && Shape(m, h, n)
    && (forall c | c in H :: 1 <= c <= h)
    && Horizontal(m, H)
    && Vertical(m, h, n, H, Live(m, h, n, H))
  }

  lemma LiveCongruent(m: Nodes, m': Nodes, h: nat, n: nat, H: set<nat>)
    requires Shape(m, h, n) && SameRows(m, m', h) && InRange(m')
    ensures Live(m', h, n, H) == Live(m, h, n, H)
  {
    forall x: nat | h < x < n
      ensures Cols(m', x) == Cols(m, x)
    {
      RowCongruent(m, m', h, n, x);
    }
  }

  lemma LiveRow(m: Nodes, h: nat, n: nat, H: set<nat>, x: nat, a: int)
    requires Shape(m, h, n) && x in Live(m, h, n, H) && 0 <= a < 4
    ensures Mate(m, x, a) in Live(m, h, n, H) && m[Mate(m, x, a)].col in H
  {
    RowFacts(m, h, n, x);
    if a != 0 {
      MateBack(m, h, n, x, a);
    }
    assert m[Mate(m, x, a)].col in Cols(m, x);
  }

  /** s lists the rows of column c, top to bottom. */
  ghost predicate IsColumn(m: Nodes, h: nat, n: nat, P: set<nat>, c: nat, s: seq<nat>)
    requires InRange(m) && c < |m|
  {
    && (forall k | 0 <= k < |s| :: s[k] < |m| && h < s[k] < n && s[k] in P && m[s[k]].col == c)
    && (forall y | y in P && y < |m| && m[y].col == c :: y in s)
    && Increasing(s)
  }

  lemma ColumnIs(m: Nodes, h: nat, n: nat, K: set<nat>, P: set<nat>, c: nat)
    requires Vertical(m, h, n, K, P) && c in K
    ensures IsColumn(m, h, n, P, c, DownFrom(m, c))
  {
    DownMembers(m, h, n, K, P, c);
    DownIncreasing(m, c);
  }

  /** The nodes that a cover takes out, in the order in which it does. */
  ghost function Others(m: Nodes, rows: seq<nat>): (js: seq<nat>)
    requires InRange(m) && forall k | 0 <= k < |rows| :: rows[k] < |m|
    ensures |js| == 3 * |rows|
    ensures forall q | 0 <= q < |js| :: js[q] == Mate(m, rows[q / 3], q % 3 + 1)
  {
    seq(3 * |rows|, q requires 0 <= q < 3 * |rows| => Mate(m, rows[q / 3], q % 3 + 1))
  }

  lemma OthersAt(m: Nodes, rows: seq<nat>, k: nat)
    requires InRange(m) && forall k | 0 <= k < |rows| :: rows[k] < |m|
    requires k < |rows|
    ensures var js := Others(m, rows);
            js[3 * k] == Mate(m, rows[k], 1) && js[3 * k + 1] == Mate(m, rows[k], 2)
            && js[3 * k + 2] == Mate(m, rows[k], 3)
  {
    assert (3 * k) / 3 == k && (3 * k + 1) / 3 == k && (3 * k + 2) / 3 == k;
  }

  ghost function ToRemove(m: Nodes, c: nat): (js: seq<nat>)
    requires InRange(m) && c < |m|
    ensures forall q | 0 <= q < |js| :: js[q] < |m|
  {
    Others(m, DownFrom(m, c))
  }

  /** The mesh after column c is covered. */
  ghost function Cover(m: Nodes, c: nat): (m': Nodes)
    requires InRange(m) && c < |m|
    ensures |m'| == |m| && InRange(m')
  {
    UnlinkAll(UnlinkHeader(m, c), ToRemove(m, c))
  }

  /** A node determines the node of its row that stands in column c. */
  lemma SameMate(m: Nodes, h: nat, n: nat, x: nat, y: nat, a: int, b: int)
    requires Shape(m, h, n) && h < x < n && h < y < n && m[x].col == m[y].col
    requires 1 <= a < 4 && 1 <= b < 4 && Mate(m, x, a) == Mate(m, y, b)
    ensures x == y && a == b
  {
    MateBack(m, h, n, x, a);
    MateBack(m, h, n, y, b);
    RowFacts(m, h, n, x);
    RowFacts(m, h, n, Mate(m, x, a));
  }

  lemma RemovedDistinct(m: Nodes, h: nat, n: nat, P: set<nat>, c: nat, rows: seq<nat>)
    requires Shape(m, h, n) && c < |m| && IsColumn(m, h, n, P, c, rows)
    ensures Distinct(Others(m, rows))
  {
    var js := Others(m, rows);
    forall p, q | 0 <= p < q < |js|
      ensures js[p] != js[q]
    {
      if js[p] == js[q] {
        SameMate(m, h, n, rows[p / 3], rows[q / 3], p % 3 + 1, q % 3 + 1);
      }
    }
  }

  lemma RemovedRemovable(m: Nodes, h: nat, n: nat, H: set<nat>, c: nat)
    requires Active(m, h, n, H) && c in H
    ensures Removable(m, H - {c}, Live(m, h, n, H), ToRemove(m, c))
  {
    var P, rows := Live(m, h, n, H), DownFrom(m, c);
    var js := ToRemove(m, c);
    ColumnIs(m, h, n, H, P, c);
    RemovedDistinct(m, h, n, P, c, rows);
    forall q | 0 <= q < |js|
      ensures js[q] in P && m[js[q]].col in H - {c}
    {
      var x, a := rows[q / 3], q % 3 + 1;
      LiveRow(m, h, n, H, x, a);
      RowFacts(m, h, n, x);
      assert m[Mate(m, x, 0)].col != m[Mate(m, x, a)].col;
    }
  }

  lemma HeaderGone(m: Nodes, h: nat, n: nat, H: set<nat>, c: nat)
    requires Active(m, h, n, H) && c in H
    ensures var m1 := UnlinkHeader(m, c);
            && SameRows(m, m1, h) && Shape(m1, h, n)
            && Horizontal(m1, H - {c})
            && Vertical(m1, h, n, H - {c}, Live(m, h, n, H))
            && (forall i | 0 <= i < |m| :: m1[i].up == m[i].up && m1[i].down == m[i].down)
  {
    var P := Live(m, h, n, H);
    UnlinkHeaderHorizontal(m, H, c);
    assert HLinkedAt(m, H, c);
    UnlinkHeaderFields(m, c);
    VerticalCongruent(m, UnlinkHeader(m, c), h, n, H, P);
    VerticalFewer(UnlinkHeader(m, c), h, n, H, P, H - {c}, P);
  }

  /** A live row that uses column c is taken out. */
  lemma DeadIsRemoved(m: Nodes, h: nat, n: nat, H: set<nat>, c: nat, x: nat)
    requires Active(m, h, n, H) && c in H
    requires x in Live(m, h, n, H) && m[x].col != c && c in Cols(m, x)
    ensures x in ToRemove(m, c)
  {
    var P, rows, js := Live(m, h, n, H), DownFrom(m, c), ToRemove(m, c);
    var a :| 1 <= a < 4 && m[Mate(m, x, a)].col == c;
    LiveRow(m, h, n, H, x, a);
    MateBack(m, h, n, x, a);
    ColumnIs(m, h, n, H, P, c);
    var k :| 0 <= k < |rows| && rows[k] == Mate(m, x, a);
    var q := 3 * k + (3 - a);
    assert q / 3 == k && q % 3 == 3 - a;
    assert js[q] == x;
  }

  /** Only rows that use column c are taken out. */
  lemma RemovedIsDead(m: Nodes, h: nat, n: nat, H: set<nat>, c: nat, x: nat)
    requires Active(m, h, n, H) && c in H && x in ToRemove(m, c)
    ensures x < |m| && c in Cols(m, x)
  {
    var P, rows, js := Live(m, h, n, H), DownFrom(m, c), ToRemove(m, c);
    ColumnIs(m, h, n, H, P, c);
    var q :| 0 <= q < |js| && js[q] == x;
    MateBack(m, h, n, rows[q / 3], q % 3 + 1);
    assert c in Cols(m, rows[q / 3]);
  }

  lemma LiveAfter(m: Nodes, h: nat, n: nat, H: set<nat>, c: nat, x: nat)
    requires Active(m, h, n, H) && c in H && x < |m| && m[x].col in H - {c}
    ensures x in Live(m, h, n, H) - SetOf(ToRemove(m, c)) <==> x in Live(m, h, n, H - {c})
  {
    if x in Live(m, h, n, H) && c in Cols(m, x) {
      DeadIsRemoved(m, h, n, H, c, x);
    }
    if x in ToRemove(m, c) {
      RemovedIsDead(m, h, n, H, c, x);
    }
  }

  /** Covering a column that is in the header list leaves the mesh of the other columns:
      the exact-cover matrix without c and without the rows that use c.  The list of c itself
      and everything else outside the remaining columns stays as it was. */
  lemma CoverActive(m: Nodes, h: nat, n: nat, H: set<nat>, c: nat)
    requires Active(m, h, n, H) && c in H
    ensures Active(Cover(m, c), h, n, H - {c})
    ensures SameRows(m, Cover(m, c), h)
    ensures forall i | 0 <= i < |m| && m[i].col !in H - {c} ::
              var m' := Cover(m, c); m'[i].up == m[i].up && m'[i].down == m[i].down
  {
    hide Columns, Horizontal, RowNode, ToRemove, UnlinkHeader, UnlinkAll;
    var m1, P, js := UnlinkHeader(m, c), Live(m, h, n, H), ToRemove(m, c);
    var m', H' := Cover(m, c), H - {c};
    HeaderGone(m, h, n, H, c);
    RemovedRemovable(m, h, n, H, c);
    UnlinkAllVertical(m1, h, n, H', P, js);
    HorizontalCongruent(m1, m', H');
    LiveCongruent(m, m', h, n, H');
    forall x: nat | x < |m'| && m'[x].col in H'
      ensures x in P - SetOf(js) <==> x in Live(m', h, n, H')
    {
      LiveAfter(m, h, n, H, c, x);
    }
    VerticalFewer(m', h, n, H', P - SetOf(js), H', Live(m', h, n, H'));
  }

  // ----- the exact cover problem of the mesh -----

  ghost function MatrixOf(m: Nodes, h: nat, n: nat): (M: Matrix)
    requires InRange(m) && n <= |m|
  {
    map x: nat | h < x < n :: Cols(m, x)
  }

  lemma MatrixCongruent(m: Nodes, m': Nodes, h: nat, n: nat)
    requires Shape(m, h, n) && SameRows(m, m', h) && InRange(m')
    ensures MatrixOf(m', h, n) == MatrixOf(m, h, n)
  {
    forall x: nat | h < x < n
      ensures Cols(m', x) == Cols(m, x)
    {
      RowCongruent(m, m', h, n, x);
    }
  }

  /** A column that some cover of H needs has, among its live rows, one that starts a cover. */
  lemma SomeRowStarts(m: Nodes, h: nat, n: nat, H: set<nat>, c: nat) returns (y: nat)
    requires Shape(m, h, n) && c in H && Coverable(MatrixOf(m, h, n), H)
    ensures h < y < n && y in Live(m, h, n, H) && m[y].col == c
    ensures Coverable(MatrixOf(m, h, n), H - Cols(m, y))
  {
    hide RowNode, Mate, Coverable;
    var x := SplitCover(MatrixOf(m, h, n), H, c);
    y := MateIn(m, h, n, x, c);
    assert y in Live(m, h, n, H);
  }

  lemma MateIn(m: Nodes, h: nat, n: nat, x: nat, c: nat) returns (y: nat)
    requires Shape(m, h, n) && h < x < n && c in Cols(m, x)
    ensures h < y < n && m[y].col == c && Cols(m, y) == Cols(m, x)
  {
    RowFacts(m, h, n, x);
    var a :| 0 <= a < 4 && m[Mate(m, x, a)].col == c;
    y := Mate(m, x, a);
    if a != 0 {
      MateBack(m, h, n, x, a);
    }
  }

  // ----- covering the other columns of a chosen row -----

  /** The columns left after those of the first t mates of x are covered too. */
  ghost function Rest(m: Nodes, H: set<nat>, x: nat, t: nat): (H': set<nat>)
    requires InRange(m) && x < |m|
  {
    if t == 0 then H else Rest(m, H, x, t - 1) - {m[Mate(m, x, t)].col}
  }

  ghost function CoverMates(m: Nodes, x: nat, t: nat): (m': Nodes)
    requires InRange(m) && x < |m|
    ensures |m'| == |m| && InRange(m')
  {
    if t == 0 then m else Cover(CoverMates(m, x, t - 1), m[Mate(m, x, t)].col)
  }

  lemma RestAll(m: Nodes, H: set<nat>, x: nat)
    requires InRange(m) && x < |m|
    ensures Rest(m, H - {m[x].col}, x, 3) == H - Cols(m, x)
  {
    assert Rest(m, H - {m[x].col}, x, 1) == H - {m[x].col} - {m[Mate(m, x, 1)].col};
    assert Rest(m, H - {m[x].col}, x, 2) == H - {m[x].col} - {m[Mate(m, x, 1)].col} - {m[Mate(m, x, 2)].col};
  }

  /** The t-th mate of a chosen row still has its column to be covered after t-1 of them. */
  lemma NextColumn(m: Nodes, h: nat, n: nat, H: set<nat>, x: nat, t: nat)
    requires Shape(m, h, n) && h < x < n && 1 <= t <= 3
    requires forall a | 1 <= a < 4 :: m[Mate(m, x, a)].col in H
    ensures m[Mate(m, x, t)].col in Rest(m, H, x, t - 1)
  {
    RowFacts(m, h, n, x);
    if t == 3 {
      assert Rest(m, H, x, 2) == Rest(m, H, x, 1) - {m[Mate(m, x, 2)].col};
      assert Rest(m, H, x, 1) == H - {m[Mate(m, x, 1)].col};
    }
  }

  lemma {:induction false} CoverMatesActive(m: Nodes, h: nat, n: nat, H: set<nat>, x: nat, t: nat)
    requires Active(m, h, n, H) && h < x < n && t <= 3
    requires forall a | 1 <= a < 4 :: m[Mate(m, x, a)].col in H
    ensures Active(CoverMates(m, x, t), h, n, Rest(m, H, x, t))
    ensures SameRows(m, CoverMates(m, x, t), h)
  {
    hide Cover, Vertical, Horizontal, Live, RowNode;
    if t != 0 {
      CoverMatesActive(m, h, n, H, x, t - 1);
      NextColumn(m, h, n, H, x, t);
      CoverActive(CoverMates(m, x, t - 1), h, n, Rest(m, H, x, t - 1), m[Mate(m, x, t)].col);
    }
  }
}
