/** Building the mesh of a sudoku: headers are appended to the root's list, nodes to the list of
    their header, and four nodes are tied into a row. */
module MeshBuilding {
  import opened Mesh
  import opened Grid
  import opened Encoding

  ghost function Range(lo: nat, hi: nat): (s: set<nat>)
    ensures forall x :: x in s <==> lo <= x < hi
  {
    if hi <= lo then {} else Range(lo, hi - 1) + {hi - 1}
  }

  /** put_left: ties nnew in to the left of old. */
  ghost function PutLeft(m: Nodes, old': nat, nnew: nat): (m': Nodes)
    requires InRange(m) && old' < |m| && nnew < |m|
    ensures |m'| == |m| && InRange(m')
  {
    var m1 := SetRight(SetLeft(m, nnew, m[old'].left), nnew, old');
    SetLeft(SetRight(m1, m1[old'].left, nnew), old', nnew)
  }

  /** put_up: ties nnew in at the bottom of the column of old. */
  ghost function PutUp(m: Nodes, old': nat, nnew: nat): (m': Nodes)
    requires InRange(m) && old' < |m| && nnew < |m|
    ensures |m'| == |m| && InRange(m')
  {
    var m1 := SetDown(SetUp(m, nnew, m[old'].up), nnew, old');
    var m2 := SetUp(SetDown(m1, m1[old'].up, nnew), old', nnew);
    var m3 := AddSize(m2, old', 1);
    m3[nnew := m3[nnew].(col := old')]
  }

  function Single(i: nat, nm: int, c: nat): (x: Node) { Node(i, i, i, i, c, nm, 0) }

  // ----- headers -----

  ghost function WithHeader(m: Nodes, c: nat, nm: int): (m': Nodes)
    requires InRange(m) && 0 < c < |m|
    ensures |m'| == |m| && InRange(m')
  {
    PutLeft(m[c := Single(c, nm, c)], 0, c)
  }

  lemma HeaderAppended(m: Nodes, c: nat, nm: int)
    requires 0 < c < |m| && Horizontal(m, Range(1, c))
    ensures Horizontal(WithHeader(m, c, nm), Range(1, c + 1))
  {
    hide WithHeader, HLinkedAt;
    var m', H' := WithHeader(m, c, nm), Range(1, c + 1);
    forall x: nat | x <= c
      ensures HLinkedAt(m', H', x)
    {
      HeaderLinked(m, c, nm, x);
    }
  }

  lemma HeaderFields(m: Nodes, c: nat, nm: int)
    requires 0 < c < |m| && Horizontal(m, Range(1, c))
    ensures var m' := WithHeader(m, c, nm);
            && m'[c] == Node(m[0].left, 0, c, c, c, nm, 0)
            && (forall i | 0 <= i < |m| && i != c ::
              && m'[i].left == (if i == 0 then c else m[i].left)
              && m'[i].right == (if i == m[0].left then c else m[i].right)
              && m'[i].up == m[i].up && m'[i].down == m[i].down && m'[i].col == m[i].col
              && m'[i].name == m[i].name && m'[i].size == m[i].size)
  {
    assert HLinkedAt(m, Range(1, c), 0);
  }

  lemma HeaderLinked(m: Nodes, c: nat, nm: int, x: nat)
    requires 0 < c < |m| && Horizontal(m, Range(1, c)) && x <= c
    ensures HLinkedAt(WithHeader(m, c, nm), Range(1, c + 1), x)
  {
    var m', H := WithHeader(m, c, nm), Range(1, c);
    HeaderFields(m, c, nm);
    hide WithHeader;
    assert HLinkedAt(m, H, 0);
    assert HLinkedAt(m, H, m[0].left);
    if x != c {
      assert HLinkedAt(m, H, x);
    }
  }

  // ----- nodes -----

  ghost function WithNode(m: Nodes, x: nat, nm: int, c: nat): (m': Nodes)
    requires InRange(m) && x < |m| && c < |m|
    ensures |m'| == |m| && InRange(m')
  {
    PutUp(m[x := Single(x, nm, c)], c, x)
  }

  lemma NodeFields(m: Nodes, x: nat, nm: int, c: nat)
    requires InRange(m) && x < |m| && c < |m| && c != x && m[c].up != x
    ensures var m' := WithNode(m, x, nm, c);
            && m'[x] == Node(x, x, m[c].up, c, c, nm, 0)
            && (forall i | 0 <= i < |m| && i != x ::
              && m'[i].left == m[i].left && m'[i].right == m[i].right
              && m'[i].col == m[i].col && m'[i].name == m[i].name
              && m'[i].up == (if i == c then x else m[i].up)
              && m'[i].down == (if i == m[c].up then x else m[i].down)
              && m'[i].size == (if i == c then m[i].size + 1 else m[i].size))
  {
  }

  /** A new node, with the largest index so far, goes to the bottom of its column. */
  lemma NodeAppended(m: Nodes, h: nat, n: nat, K: set<nat>, P: set<nat>, nm: int, c: nat)
    requires Columns(m, h, n, K, P) && c in K && n < |m| && forall i | i in K :: m[i].col == i
    ensures Columns(WithNode(m, n, nm, c), h, n + 1, K, P + {n})
    ensures m[c].up != n && c != n
  {
    var m', P' := WithNode(m, n, nm, c), P + {n};
    assert LinkedAt(m, K, P, c);
    NodeFields(m, n, nm, c);
    assert n !in P;
    forall x: nat | x < |m'| && In(m', K, P', x)
      ensures LinkedAt(m', K, P', x)
    {
      NodeLinked(m, h, n, K, P, nm, c, x);
    }
    forall d | d in K
      ensures m'[d].size == |Members(m', P', d)|
    {
      if d == c {
        assert Members(m', P', d) == Members(m, P, d) + {n};
      } else {
        assert Members(m', P', d) == Members(m, P, d);
      }
    }
  }

  lemma NodeLinked(m: Nodes, h: nat, n: nat, K: set<nat>, P: set<nat>, nm: int, c: nat, x: nat)
    requires Columns(m, h, n, K, P) && c in K && n < |m| && forall i | i in K :: m[i].col == i
    requires In(WithNode(m, n, nm, c), K, P + {n}, x)
    ensures LinkedAt(WithNode(m, n, nm, c), K, P + {n}, x)
  {
    var m', P' := WithNode(m, n, nm, c), P + {n};
    assert LinkedAt(m, K, P, c);
    NodeFields(m, n, nm, c);
    hide WithNode, Members;
    var last := m[c].up;
    assert LinkedAt(m, K, P, last);
    assert In(m', K, P', n) && In(m', K, P', last) && In(m', K, P', c);
    if x == n {
      forall y: nat | In(m', K, P', y) ensures y <= n {}
    } else {
      OldNodeLinked(m, m', h, n, K, P, c, x);
    }
  }

  lemma OldNodeLinked(m: Nodes, m': Nodes, h: nat, n: nat, K: set<nat>, P: set<nat>, c: nat, x: nat)
    requires Columns(m, h, n, K, P) && c in K && n < |m| && |m'| == |m| && InRange(m')
    requires forall i | i in K :: m[i].col == i
    requires In(m, K, P, x) && x != n && In(m', K, P + {n}, n) && m'[n].col == c && m'[n].up == m[c].up && m'[n].down == c
    requires forall i | 0 <= i < |m| && i != n ::
               && m'[i].col == m[i].col
               && m'[i].up == (if i == c then n else m[i].up)
               && m'[i].down == (if i == m[c].up then n else m[i].down)
    ensures LinkedAt(m', K, P + {n}, x)
  {
    hide Members;
    var P' := P + {n};
    assert LinkedAt(m, K, P, c);
    assert LinkedAt(m, K, P, x);
    assert In(m', K, P', m[x].down) && In(m', K, P', m[x].up);
    forall y: nat | In(m', K, P', y) && m'[y].col == m'[x].col
      ensures y <= x || (x < m'[x].down <= y)
    {
      if y != n {
        assert In(m, K, P, y);
      } else if x != m[c].up {
        assert m[x].down != c;
        assert In(m, K, P, m[x].down);
      }
    }
  }

  // ----- all headers -----

  /** cols finds the header of every name in done, and headers carry no other names. */
  ghost predicate Names(m: Nodes, n: nat, cols: seq<nat>, done: set<int>) {
    && n <= |m| && |cols| == 400
    && (forall c | 1 <= c < n :: 0 <= m[c].name < 400 && m[c].name in done && cols[m[c].name] == c)
    && (forall nm | 0 <= nm < 400 && cols[nm] != 0 :: nm in done)
    && (forall nm | nm in done :: 0 <= nm < 400 && 1 <= cols[nm] < n && m[cols[nm]].name == nm)
  }

  /** Only headers so far: n - 1 of them, none with a node. */
  ghost predicate Heads(m: Nodes, n: nat, cols: seq<nat>, done: set<int>) {
    && 1 <= n <= |m|
    && Horizontal(m, Range(1, n))
    && (forall c | 0 <= c < n :: m[c].col == c)
    && (forall c | 1 <= c < n :: m[c].up == c && m[c].down == c && m[c].size == 0)
    && Names(m, n, cols, done)
  }

  lemma HeadsStart(m: Nodes, cols: seq<nat>)
    requires InRange(m) && |m| > 0 && m[0] == Single(0, 0, 0)
    requires |cols| == 400 && forall nm | 0 <= nm < 400 :: cols[nm] == 0
    ensures Heads(m, 1, cols, {})
  {
    assert HLinkedAt(m, Range(1, 1), 0);
  }

  lemma HeadsGrow(m: Nodes, n: nat, cols: seq<nat>, done: set<int>, nm: int)
    requires Heads(m, n, cols, done) && n < |m| && 0 <= nm < 400 && cols[nm] == 0
    ensures Heads(WithHeader(m, n, nm), n + 1, cols[nm := n], done + {nm})
  {
    hide WithHeader, HLinkedAt;
    HeaderAppended(m, n, nm);
    HeaderFields(m, n, nm);
  }

  // ----- rows -----

  /** The four nodes from index q on place value v in cell i. */
  ghost predicate RowAt(m: Nodes, cols: seq<nat>, q: nat, i: nat, v: int)
    requires |cols| == 400
  {
    && i < 81 && 1 <= v <= 9 && q + 3 < |m|
    && m[q].name == i && m[q].col == cols[i]
    && m[q + 1].name == NameOf(Row, UnitOf(Row, i), v) && m[q + 1].col == cols[m[q + 1].name]
    && m[q + 2].name == NameOf(Column, UnitOf(Column, i), v) && m[q + 2].col == cols[m[q + 2].name]
    && m[q + 3].name == NameOf(Box, UnitOf(Box, i), v) && m[q + 3].col == cols[m[q + 3].name]
    && m[q].right == q + 1 && m[q + 1].right == q + 2 && m[q + 2].right == q + 3 && m[q + 3].right == q
    && m[q].left == q + 3 && m[q + 1].left == q && m[q + 2].left == q + 1 && m[q + 3].left == q + 2
  }

  /** The headers are complete, and the nodes after them stand in their columns. */
  ghost predicate FrameBuilt(m: Nodes, h: nat, n: nat, cols: seq<nat>, done: set<int>) {
    && Columns(m, h, n, Range(1, h + 1), Range(h + 1, n))
    && Horizontal(m, Range(1, h + 1))
    && (forall c | 0 <= c <= h :: m[c].col == c)
    && Names(m, h + 1, cols, done)
  }

  /** The rows made so far stand one after the other. */
  ghost predicate RowList(m: Nodes, h: nat, cols: seq<nat>, made: seq<(nat, int)>)
    requires |cols| == 400
  {
    forall r {:trigger made[r]} | 0 <= r < |made| :: RowAt(m, cols, h + 1 + 4 * r, made[r].0, made[r].1)
  }

  ghost predicate RowsBuilt(m: Nodes, h: nat, n: nat, cols: seq<nat>, done: set<int>, made: seq<(nat, int)>) {
    n == h + 1 + 4 * |made| && FrameBuilt(m, h, n, cols, done) && RowList(m, h, cols, made)
  }

  lemma RowsStart(m: Nodes, h: nat, cols: seq<nat>, done: set<int>)
    requires Heads(m, h + 1, cols, done)
    ensures RowsBuilt(m, h, h + 1, cols, done, [])
  {
    var K, P := Range(1, h + 1), Range(h + 1, h + 1);
    forall x: nat | x < |m| && In(m, K, P, x)
      ensures LinkedAt(m, K, P, x)
    {
    }
    forall c | c in K
      ensures m[c].size == |Members(m, P, c)|
    {
      assert Members(m, P, c) == {};
    }
  }

  /** Nothing that a row or the header list depends on has changed below index n. */
  ghost predicate KeepsBelow(m: Nodes, m': Nodes, n: nat) {
    && |m'| == |m| && n <= |m|
    && forall i | 0 <= i < n ::
        m'[i].left == m[i].left && m'[i].right == m[i].right && m'[i].col == m[i].col && m'[i].name == m[i].name
  }

  ghost predicate Loose(m: Nodes, x: nat, nm: int, c: nat) {
    x < |m| && m[x].left == x && m[x].right == x && m[x].name == nm && m[x].col == c
  }

  lemma OneNode(m: Nodes, h: nat, n: nat, nm: int, c: nat)
    requires Columns(m, h, n, Range(1, h + 1), Range(h + 1, n)) && n < |m|
    requires forall c | 0 <= c <= h :: m[c].col == c
    requires 1 <= c <= h
    ensures var m' := WithNode(m, n, nm, c);
            && Columns(m', h, n + 1, Range(1, h + 1), Range(h + 1, n + 1))
            && KeepsBelow(m, m', n) && Loose(m', n, nm, c)
  {
    NodeAppended(m, h, n, Range(1, h + 1), Range(h + 1, n), nm, c);
    NodeFields(m, n, nm, c);
    assert Range(h + 1, n + 1) == Range(h + 1, n) + {n};
  }

  /** The four nodes of a row, not yet tied to each other. */
  ghost function WithFour(m: Nodes, n: nat, cols: seq<nat>, i: nat, v: int): (m': Nodes)
    requires InRange(m) && n + 3 < |m| && |cols| == 400 && i < 81 && 1 <= v <= 9
    requires cols[i] < |m| && forall k: Kind :: cols[NameOf(k, UnitOf(k, i), v)] < |m|
    ensures |m'| == |m| && InRange(m')
  {
    var nr, nc, nb := NameOf(Row, UnitOf(Row, i), v), NameOf(Column, UnitOf(Column, i), v), NameOf(Box, UnitOf(Box, i), v);
    var m1 := WithNode(m, n, i, cols[i]);
    var m2 := WithNode(m1, n + 1, nr, cols[nr]);
    var m3 := WithNode(m2, n + 2, nc, cols[nc]);
    WithNode(m3, n + 3, nb, cols[nb])
  }

  lemma FourNodes(m: Nodes, h: nat, n: nat, cols: seq<nat>, i: nat, v: int)
    requires Columns(m, h, n, Range(1, h + 1), Range(h + 1, n)) && n + 3 < |m|
    requires forall c | 0 <= c <= h :: m[c].col == c
    requires |cols| == 400 && i < 81 && 1 <= v <= 9
    requires 1 <= cols[i] <= h && forall k: Kind :: 1 <= cols[NameOf(k, UnitOf(k, i), v)] <= h
    ensures var m' := WithFour(m, n, cols, i, v);
            && Columns(m', h, n + 4, Range(1, h + 1), Range(h + 1, n + 4))
            && KeepsBelow(m, m', n)
            && Loose(m', n, i, cols[i])
            && Loose(m', n + 1, NameOf(Row, UnitOf(Row, i), v), cols[NameOf(Row, UnitOf(Row, i), v)])
            && Loose(m', n + 2, NameOf(Column, UnitOf(Column, i), v), cols[NameOf(Column, UnitOf(Column, i), v)])
            && Loose(m', n + 3, NameOf(Box, UnitOf(Box, i), v), cols[NameOf(Box, UnitOf(Box, i), v)])
  {
    hide Columns, WithNode, NameOf, UnitOf, Loose, Range, KeepsBelow;
    FrameColumns(m, h, n, Range(1, h + 1), Range(h + 1, n));
    NameOfRange(Row, UnitOf(Row, i), v);
    NameOfRange(Column, UnitOf(Column, i), v);
    NameOfRange(Box, UnitOf(Box, i), v);
    var nr, nc, nb := NameOf(Row, UnitOf(Row, i), v), NameOf(Column, UnitOf(Column, i), v), NameOf(Box, UnitOf(Box, i), v);
    TwoNodes(m, h, n, i, cols[i], nr, cols[nr]);
    var m2 := WithNode(WithNode(m, n, i, cols[i]), n + 1, nr, cols[nr]);
    TwoNodes(m2, h, n + 2, nc, cols[nc], nb, cols[nb]);
    var m' := WithFour(m, n, cols, i, v);
    StillLoose(m2, m', n + 2, n, i, cols[i]);
    StillLoose(m2, m', n + 2, n + 1, nr, cols[nr]);
    KeepsBoth(m, m2, m', n, n + 2);
  }

  lemma StillLoose(m: Nodes, m': Nodes, n: nat, x: nat, nm: int, c: nat)
    requires KeepsBelow(m, m', n) && x < n && Loose(m, x, nm, c)
    ensures Loose(m', x, nm, c)
  {
  }

  lemma KeepsBoth(m: Nodes, m1: Nodes, m2: Nodes, n: nat, n1: nat)
    requires KeepsBelow(m, m1, n) && KeepsBelow(m1, m2, n1) && n <= n1
    ensures KeepsBelow(m, m2, n)
  {
  }

  lemma TwoNodes(m: Nodes, h: nat, n: nat, nm1: int, c1: nat, nm2: int, c2: nat)
    requires Columns(m, h, n, Range(1, h + 1), Range(h + 1, n)) && n + 1 < |m|
    requires forall c | 0 <= c <= h :: m[c].col == c
    requires 1 <= c1 <= h && 1 <= c2 <= h
    ensures var m' := WithNode(WithNode(m, n, nm1, c1), n + 1, nm2, c2);
            && Columns(m', h, n + 2, Range(1, h + 1), Range(h + 1, n + 2))
            && KeepsBelow(m, m', n) && Loose(m', n, nm1, c1) && Loose(m', n + 1, nm2, c2)
            && forall c | 0 <= c <= h :: m'[c].col == c
  {
    hide WithNode, LinkedAt, Members, In, Range;
    FrameColumns(m, h, n, Range(1, h + 1), Range(h + 1, n));
    OneNode(m, h, n, nm1, c1);
    var m1 := WithNode(m, n, nm1, c1);
    OneNode(m1, h, n + 1, nm2, c2);
  }

  ghost function Tied(m: Nodes, n: nat): (m': Nodes)
    requires InRange(m) && n + 3 < |m|
    ensures |m'| == |m| && InRange(m')
  {
    PutLeft(PutLeft(PutLeft(m, n, n + 1), n, n + 2), n, n + 3)
  }

  lemma TiedFields(m: Nodes, n: nat)
    requires InRange(m) && n + 3 < |m|
    requires forall a | n <= a < n + 4 :: m[a].left == a && m[a].right == a
    ensures var m' := Tied(m, n);
            && (forall i | 0 <= i < |m| ::
              m'[i].up == m[i].up && m'[i].down == m[i].down && m'[i].col == m[i].col
              && m'[i].name == m[i].name && m'[i].size == m[i].size)
            && (forall i | 0 <= i < |m| && !(n <= i < n + 4) :: m'[i].left == m[i].left && m'[i].right == m[i].right)
            && m'[n].right == n + 1 && m'[n + 1].right == n + 2 && m'[n + 2].right == n + 3 && m'[n + 3].right == n
            && m'[n].left == n + 3 && m'[n + 1].left == n && m'[n + 2].left == n + 1 && m'[n + 3].left == n + 2
  {
  }

  ghost function WithRow(m: Nodes, n: nat, cols: seq<nat>, i: nat, v: int): (m': Nodes)
    requires InRange(m) && n + 3 < |m| && |cols| == 400 && i < 81 && 1 <= v <= 9
    requires cols[i] < |m| && forall k: Kind :: cols[NameOf(k, UnitOf(k, i), v)] < |m|
    ensures |m'| == |m| && InRange(m')
  {
    Tied(WithFour(m, n, cols, i, v), n)
  }

  lemma ColumnsSame(m: Nodes, m': Nodes, h: nat, n: nat, K: set<nat>, P: set<nat>)
    requires Columns(m, h, n, K, P) && |m'| == |m| && InRange(m')
    requires forall i | 0 <= i < |m| ::
               m'[i].up == m[i].up && m'[i].down == m[i].down && m'[i].col == m[i].col && m'[i].size == m[i].size
    ensures Columns(m', h, n, K, P)
  {
    forall x: nat | x < |m'| && In(m', K, P, x)
      ensures LinkedAt(m', K, P, x)
    {
      assert LinkedAt(m, K, P, x);
    }
    forall c | c in K
      ensures m'[c].size == |Members(m', P, c)|
    {
      assert Members(m', P, c) == Members(m, P, c);
    }
  }

  lemma HorizontalSame(m: Nodes, m': Nodes, H: set<nat>)
    requires Horizontal(m, H) && |m'| == |m| && InRange(m')
    requires forall i | 0 <= i < |m| && (i == 0 || i in H) :: m'[i].left == m[i].left && m'[i].right == m[i].right
    ensures Horizontal(m', H)
  {
    forall x | 0 <= x < |m'| && (x in H || x == 0)
      ensures HLinkedAt(m', H, x)
    {
      assert HLinkedAt(m, H, x);
    }
  }

  lemma RowSame(m: Nodes, m': Nodes, cols: seq<nat>, n: nat, q: nat, i: nat, v: int)
    requires |cols| == 400 && RowAt(m, cols, q, i, v) && KeepsBelow(m, m', n) && q + 3 < n
    ensures RowAt(m', cols, q, i, v)
  {
    hide NameOf, UnitOf;
  }

  /** The names of a row that may be added have headers. */
  lemma HeadersExist(m: Nodes, h: nat, cols: seq<nat>, done: set<int>, i: nat, v: int)
    requires Names(m, h + 1, cols, done) && i < 81
    requires i in done && forall k: Kind :: NameOf(k, UnitOf(k, i), v) in done
    ensures 1 <= cols[i] <= h && forall k: Kind :: 0 <= NameOf(k, UnitOf(k, i), v) < 400 && 1 <= cols[NameOf(k, UnitOf(k, i), v)] <= h
  {
  }

  /** One more row: four nodes at the bottom of four columns, tied to each other. */
  lemma RowsGrow(m: Nodes, h: nat, n: nat, cols: seq<nat>, done: set<int>, made: seq<(nat, int)>, i: nat, v: int)
    requires RowsBuilt(m, h, n, cols, done, made) && n + 3 < |m| && i < 81 && 1 <= v <= 9
    requires i in done && forall k: Kind :: NameOf(k, UnitOf(k, i), v) in done
    ensures InRange(m) && cols[i] < |m|
    ensures forall k: Kind :: 0 <= NameOf(k, UnitOf(k, i), v) < 400 && cols[NameOf(k, UnitOf(k, i), v)] < |m|
    ensures RowsBuilt(WithRow(m, n, cols, i, v), h, n + 4, cols, done, made + [(i, v)])
  {
    hide Columns, Horizontal, Names, Range, NameOf, UnitOf, WithFour, Tied, RowList;
    FrameRange(m, h, n, cols, done);
    HeadersExist(m, h, cols, done, i, v);
    FourNodes(m, h, n, cols, i, v);
    var m4 := WithFour(m, n, cols, i, v);
    TiedFields(m4, n);
    FrameGrows(m, m4, WithRow(m, n, cols, i, v), h, n, cols, done);
    NewRow(m4, WithRow(m, n, cols, i, v), cols, n, i, v);
    ListGrows(m, WithRow(m, n, cols, i, v), h, n, cols, made, i, v);
  }

  lemma FrameRange(m: Nodes, h: nat, n: nat, cols: seq<nat>, done: set<int>)
    requires FrameBuilt(m, h, n, cols, done)
    ensures h < n <= |m| && InRange(m) && |cols| == 400 && Names(m, h + 1, cols, done)
  {
    hide Horizontal, Columns;
    FrameColumns(m, h, n, Range(1, h + 1), Range(h + 1, n));
  }

  lemma FrameColumns(m: Nodes, h: nat, n: nat, K: set<nat>, P: set<nat>)
    requires Columns(m, h, n, K, P)
    ensures h < n <= |m| && InRange(m)
  {
  }

  lemma FrameGrows(m: Nodes, m4: Nodes, m': Nodes, h: nat, n: nat, cols: seq<nat>, done: set<int>)
    requires FrameBuilt(m, h, n, cols, done) && n + 3 < |m| && KeepsBelow(m, m4, n) && InRange(m4)
    requires Columns(m4, h, n + 4, Range(1, h + 1), Range(h + 1, n + 4))
    requires m' == Tied(m4, n)
    requires forall a | n <= a < n + 4 :: m4[a].left == a && m4[a].right == a
    ensures FrameBuilt(m', h, n + 4, cols, done) && KeepsBelow(m, m', n)
  {
    hide Columns, Horizontal, Names, Tied, InRange;
    FrameRange(m, h, n, cols, done);
    TiedFields(m4, n);
    ColumnsSame(m4, m', h, n + 4, Range(1, h + 1), Range(h + 1, n + 4));
    HorizontalSame(m, m', Range(1, h + 1));
    NamesSame(m, m', h + 1, cols, done);
  }

  lemma NamesSame(m: Nodes, m': Nodes, n: nat, cols: seq<nat>, done: set<int>)
    requires Names(m, n, cols, done) && |m'| == |m| && forall i | 0 <= i < n :: m'[i].name == m[i].name
    ensures Names(m', n, cols, done)
  {
  }

  lemma ListGrows(m: Nodes, m': Nodes, h: nat, n: nat, cols: seq<nat>, made: seq<(nat, int)>, i: nat, v: int)
    requires |cols| == 400 && RowList(m, h, cols, made) && n == h + 1 + 4 * |made| && KeepsBelow(m, m', n)
    requires RowAt(m', cols, n, i, v)
    ensures RowList(m', h, cols, made + [(i, v)])
  {
    hide RowAt;
    var made' := made + [(i, v)];
    forall r | 0 <= r < |made'|
      ensures RowAt(m', cols, h + 1 + 4 * r, made'[r].0, made'[r].1)
    {
      if r < |made| {
        assert made[r] == made'[r];
        RowSame(m, m', cols, n, h + 1 + 4 * r, made[r].0, made[r].1);
      }
    }
  }

  lemma NewRow(m4: Nodes, m': Nodes, cols: seq<nat>, n: nat, i: nat, v: int)
    requires InRange(m4) && n + 3 < |m4| && |cols| == 400 && i < 81 && 1 <= v <= 9 && m' == Tied(m4, n)
    requires Loose(m4, n, i, cols[i])
    requires Loose(m4, n + 1, NameOf(Row, UnitOf(Row, i), v), cols[NameOf(Row, UnitOf(Row, i), v)])
    requires Loose(m4, n + 2, NameOf(Column, UnitOf(Column, i), v), cols[NameOf(Column, UnitOf(Column, i), v)])
    requires Loose(m4, n + 3, NameOf(Box, UnitOf(Box, i), v), cols[NameOf(Box, UnitOf(Box, i), v)])
    ensures RowAt(m', cols, n, i, v)
  {
    TiedFields(m4, n);
    hide Tied;
  }

  /** The steps that add a row, one by one. */
  lemma RowSteps(m: Nodes, h: nat, n: nat, cols: seq<nat>, done: set<int>, made: seq<(nat, int)>, i: nat, v: int)
    requires RowsBuilt(m, h, n, cols, done, made) && n + 3 < |m| && i < 81 && 1 <= v <= 9
    requires i in done && forall k: Kind :: NameOf(k, UnitOf(k, i), v) in done
    ensures InRange(m) && |cols| == 400
    ensures var r, c, b := NameOf(Row, UnitOf(Row, i), v), NameOf(Column, UnitOf(Column, i), v), NameOf(Box, UnitOf(Box, i), v);
            && 0 <= r < 400 && 0 <= c < 400 && 0 <= b < 400
            && cols[i] < |m| && cols[r] < |m| && cols[c] < |m| && cols[b] < |m|
            && var m1 := WithNode(m, n, i, cols[i]);
            var m2 := WithNode(m1, n + 1, r, cols[r]);
            var m3 := WithNode(m2, n + 2, c, cols[c]);
            var m4 := WithNode(m3, n + 3, b, cols[b]);
            var m' := PutLeft(PutLeft(PutLeft(m4, n, n + 1), n, n + 2), n, n + 3);
            RowsBuilt(m', h, n + 4, cols, done, made + [(i, v)])
  {
    hide RowsBuilt, WithNode, PutLeft, InRange;
    RowsGrow(m, h, n, cols, done, made, i, v);
    BuiltRange(m, h, n, cols, done, made);
  }

  lemma BuiltRange(m: Nodes, h: nat, n: nat, cols: seq<nat>, done: set<int>, made: seq<(nat, int)>)
    requires RowsBuilt(m, h, n, cols, done, made)
    ensures InRange(m) && |cols| == 400 && h < n <= |m| && n == h + 1 + 4 * |made|
  {
    hide FrameBuilt, RowList;
    FrameRange(m, h, n, cols, done);
  }
}
