/** The finished mesh of a board is the exact cover problem of that board. */
module MeshSudoku {
  import opened Mesh
  import opened Covering
  import opened ExactCover
  import opened RowNames
  import opened Grid
  import opened Encoding
  import opened MeshBuilding

  /** Every placement that is possible at first has its row, once, and every column is there. */
  ghost predicate Complete(b: Board, done: set<int>, made: seq<(nat, int)>) {
    && |b| == 81
    && (forall nm :: nm in done <==> Wanted(b, nm))
    && (forall r | 0 <= r < |made| :: Candidate(b, made[r].0, made[r].1))
    && (forall i: nat, v | Candidate(b, i, v) :: (i, v) in made)
    && (forall r, s | 0 <= r < s < |made| :: made[r] != made[s])
  }

  /** Node x belongs to row r, at place a. */
  ghost predicate Place(h: nat, made: seq<(nat, int)>, x: nat, r: nat, a: nat) {
    r < |made| && a < 4 && x == h + 1 + 4 * r + a
  }

  lemma PlaceOfNode(h: nat, made: seq<(nat, int)>, x: nat) returns (r: nat, a: nat)
    requires h < x < h + 1 + 4 * |made|
    ensures Place(h, made, x, r, a)
  {
    r, a := (x - h - 1) / 4, (x - h - 1) % 4;
  }

  /** The mates of a node of a row are the other three nodes of that row. */
  lemma MatesAt(m: Nodes, cols: seq<nat>, q: nat, i: nat, v: int, a: nat, x: nat)
    requires InRange(m) && |cols| == 400 && RowAt(m, cols, q, i, v) && a < 4 && x == q + a
    ensures Mate(m, x, 0) == x
    ensures Mate(m, x, 1) == if a < 3 then x + 1 else x - 3
    ensures Mate(m, x, 2) == if a < 2 then x + 2 else x - 2
    ensures Mate(m, x, 3) == if a < 1 then x + 3 else x - 1
  {
    hide NameOf, UnitOf;
    assert a == 0 || a == 1 || a == 2 || a == 3;
  }

  /** The four headers of the placement of v in cell i. */
  ghost function HeadersOf(cols: seq<nat>, i: nat, v: int): (s: set<nat>)
    requires |cols| == 400 && i < 81 && 1 <= v <= 9
  {
    {cols[i], cols[NameOf(Row, UnitOf(Row, i), v)], cols[NameOf(Column, UnitOf(Column, i), v)], cols[NameOf(Box, UnitOf(Box, i), v)]}
  }

  lemma RowReads(m: Nodes, cols: seq<nat>, q: nat, i: nat, v: int, a: nat, x: nat)
    requires InRange(m) && |cols| == 400 && RowAt(m, cols, q, i, v) && a < 4 && x == q + a
    ensures WellNamed(m, x) && CellOf(m, x) == i && ValueOf(m, x) == v
    ensures m[x].name < 100 <==> a == 0
  {
    hide Mate, NameOf, UnitOf;
    MatesAt(m, cols, q, i, v, a, x);
    NameOfRange(Row, UnitOf(Row, i), v);
    NameOfRange(Column, UnitOf(Column, i), v);
    NameOfRange(Box, UnitOf(Box, i), v);
    var t := if a == 0 then 0 else 4 - a;
    assert 0 <= m[Mate(m, x, t)].name < 81;
    assert a == 0 || a == 1 || a == 2 || a == 3;
    assert forall b | 0 <= b < 4 && b != t :: 100 <= m[Mate(m, x, b)].name;
  }

  lemma RowCols(m: Nodes, cols: seq<nat>, q: nat, i: nat, v: int, a: nat, x: nat)
    requires InRange(m) && |cols| == 400 && RowAt(m, cols, q, i, v) && a < 4 && x == q + a
    ensures Cols(m, x) == HeadersOf(cols, i, v)
  {
    MatesAt(m, cols, q, i, v, a, x);
    hide Mate;
    assert a == 0 || a == 1 || a == 2 || a == 3;
  }

  /** The four names of a row are headed by four different headers. */
  lemma HeadersDiffer(m: Nodes, h: nat, cols: seq<nat>, done: set<int>, i: nat, v: int)
    requires Names(m, h + 1, cols, done) && i < 81 && 1 <= v <= 9
    requires i in done && forall k: Kind :: NameOf(k, UnitOf(k, i), v) in done
    ensures var r, c, b := NameOf(Row, UnitOf(Row, i), v), NameOf(Column, UnitOf(Column, i), v), NameOf(Box, UnitOf(Box, i), v);
            && 1 <= cols[i] <= h && 1 <= cols[r] <= h && 1 <= cols[c] <= h && 1 <= cols[b] <= h
            && cols[i] != cols[r] && cols[i] != cols[c] && cols[i] != cols[b]
            && cols[r] != cols[c] && cols[r] != cols[b] && cols[c] != cols[b]
  {
    var r, c, b := NameOf(Row, UnitOf(Row, i), v), NameOf(Column, UnitOf(Column, i), v), NameOf(Box, UnitOf(Box, i), v);
    assert r in done && c in done && b in done;
    assert m[cols[i]].name == i && m[cols[r]].name == r && m[cols[c]].name == c && m[cols[b]].name == b;
  }

  lemma RowIsRow(m: Nodes, h: nat, n: nat, cols: seq<nat>, done: set<int>, q: nat, i: nat, v: int, a: nat, x: nat)
    requires InRange(m) && Names(m, h + 1, cols, done) && RowAt(m, cols, q, i, v) && a < 4 && x == q + a
    requires h < q && q + 3 < n <= |m|
    requires i in done && forall k: Kind :: NameOf(k, UnitOf(k, i), v) in done
    ensures RowNode(m, h, n, x)
  {
    HeadersDiffer(m, h, cols, done, i, v);
    hide Names, NameOf, UnitOf;
    assert a == 0 || a == 1 || a == 2 || a == 3;
  }

  lemma RowFound(m: Nodes, h: nat, n: nat, cols: seq<nat>, done: set<int>, made: seq<(nat, int)>, x: nat)
    returns (r: nat, a: nat)
    requires RowsBuilt(m, h, n, cols, done, made) && h < x < n
    ensures Place(h, made, x, r, a) && RowAt(m, cols, h + 1 + 4 * r, made[r].0, made[r].1)
  {
    hide FrameBuilt, RowAt;
    r, a := PlaceOfNode(h, made, x);
    assert made[r] == made[r];
  }

  lemma CandidateNames(b: Board, done: set<int>, made: seq<(nat, int)>, r: nat)
    requires Complete(b, done, made) && r < |made|
    ensures var (i, v) := made[r]; i < 81 && 1 <= v <= 9 && i in done && forall k: Kind :: NameOf(k, UnitOf(k, i), v) in done
  {
    var (i, v) := made[r];
    assert Candidate(b, i, v);
    forall k: Kind
      ensures NameOf(k, UnitOf(k, i), v) in done
    {
      assert Wanted(b, NameOf(k, UnitOf(k, i), v));
    }
  }

  /** Everything about one node of the finished mesh. */
  lemma NodeIs(m: Nodes, h: nat, n: nat, cols: seq<nat>, done: set<int>, made: seq<(nat, int)>, b: Board, x: nat)
    returns (r: nat)
    requires RowsBuilt(m, h, n, cols, done, made) && Complete(b, done, made) && h < x < n
    ensures InRange(m) && n <= |m| && r < |made| && made[r].0 < 81 && 1 <= made[r].1 <= 9
    ensures RowNode(m, h, n, x)
    ensures WellNamed(m, x) && CellOf(m, x) == made[r].0 && ValueOf(m, x) == made[r].1
    ensures Cols(m, x) == HeadersOf(cols, made[r].0, made[r].1)
    ensures m[x].name < 100 <==> x == h + 1 + 4 * r
  {
    hide Complete, RowAt, RowNode, WellNamed, CellOf, ValueOf, Cols, Columns, Horizontal, Names, RowList, HeadersOf;
    FrameRange(m, h, n, cols, done);
    var a;
    r, a := RowFound(m, h, n, cols, done, made, x);
    var q, i, v := h + 1 + 4 * r, made[r].0, made[r].1;
    CandidateNames(b, done, made, r);
    RowReads(m, cols, q, i, v, a, x);
    RowCols(m, cols, q, i, v, a, x);
    RowIsRow(m, h, n, cols, done, q, i, v, a, x);
  }

  /** All columns of the finished mesh are to be covered, and all its rows are live. */
  lemma MeshReady(m: Nodes, h: nat, n: nat, cols: seq<nat>, done: set<int>, made: seq<(nat, int)>, b: Board)
    requires RowsBuilt(m, h, n, cols, done, made) && Complete(b, done, made)
    ensures Active(m, h, n, Range(1, h + 1)) && AllNamed(m, h, n)
  {
    hide Complete, RowAt, RowNode, WellNamed, CellOf, ValueOf, Horizontal, Names, RowList, HeadersOf, LinkedAt, Members;
    FrameRange(m, h, n, cols, done);
    forall x: nat | h < x < n
      ensures RowNode(m, h, n, x) && WellNamed(m, x)
    {
      var r := NodeIs(m, h, n, cols, done, made, b, x);
    }
    assert Shape(m, h, n);
    AllLive(m, h, n);
  }

  lemma AllLive(m: Nodes, h: nat, n: nat)
    requires Shape(m, h, n)
    ensures Live(m, h, n, Range(1, h + 1)) == Range(h + 1, n)
  {
    forall x: nat | h < x < n
      ensures Cols(m, x) <= Range(1, h + 1)
    {
      RowFacts(m, h, n, x);
      assert Mate(m, x, 0) == x;
    }
  }

  /** The names, cells and values of the mesh. */
  ghost function NamedOf(m: Nodes, h: nat, n: nat): (e: Named)
    requires InRange(m) && h < n <= |m|
    requires forall x: nat | h < x < n :: CellOf(m, x) >= 0
  {
    Named(MatrixOf(m, h, n), Range(1, h + 1),
          map c: nat | 1 <= c <= h :: m[c].name,
          map x: nat | h < x < n :: CellOf(m, x) as nat,
          map x: nat | h < x < n :: ValueOf(m, x),
          set x: nat | h < x < n && m[x].name < 100)
  }

  lemma CellsNatural(m: Nodes, h: nat, n: nat)
    requires Shape(m, h, n) && AllNamed(m, h, n)
    ensures forall x: nat | h < x < n :: 0 <= CellOf(m, x) < 81
  {
    forall x: nat | h < x < n
      ensures 0 <= CellOf(m, x) < 81
    {
      assert WellNamed(m, x);
      var a := CellIndex(m, x);
    }
  }

  lemma MeshNames(m: Nodes, h: nat, n: nat, cols: seq<nat>, done: set<int>, made: seq<(nat, int)>, b: Board)
    requires RowsBuilt(m, h, n, cols, done, made) && Complete(b, done, made)
    requires InRange(m) && h < n <= |m| && forall x: nat | h < x < n :: CellOf(m, x) >= 0
    ensures NamesMatch(NamedOf(m, h, n), b)
  {
    hide RowAt, CellOf, ValueOf, Horizontal, Columns, RowList, Wanted, MatrixOf;
    var e := NamedOf(m, h, n);
    forall nm | Wanted(b, nm)
      ensures exists c :: c in e.H && c in e.name && e.name[c] == nm
    {
      assert nm in done;
      assert cols[nm] in e.H;
    }
  }

  /** A header belongs to a placement exactly when the placement uses its name. */
  lemma UsesHeader(m: Nodes, h: nat, cols: seq<nat>, done: set<int>, i: nat, v: int, c: nat)
    requires Names(m, h + 1, cols, done) && i < 81 && 1 <= v <= 9 && 1 <= c <= h
    requires i in done && forall k: Kind :: NameOf(k, UnitOf(k, i), v) in done
    ensures c in HeadersOf(cols, i, v) <==> Uses(i, v, m[c].name)
  {
    hide NameOf, UnitOf;
    assert cols[m[c].name] == c;
    if Uses(i, v, m[c].name) && m[c].name != i {
      var k: Kind :| m[c].name == NameOf(k, UnitOf(k, i), v);
      assert k == Row || k == Column || k == Box;
    }
  }

  lemma MeshRow(m: Nodes, h: nat, n: nat, cols: seq<nat>, done: set<int>, made: seq<(nat, int)>, b: Board, x: nat)
    requires RowsBuilt(m, h, n, cols, done, made) && Complete(b, done, made)
    requires InRange(m) && h < n <= |m| && forall x: nat | h < x < n :: CellOf(m, x) >= 0
    requires h < x < n
    ensures RowMatches(NamedOf(m, h, n), b, x)
  {
    hide RowAt, CellOf, ValueOf, Horizontal, Columns, RowList, Cols, Names, HeadersOf, Uses, RowNode, WellNamed, NameOf, UnitOf;
    var e := NamedOf(m, h, n);
    FrameRange(m, h, n, cols, done);
    var r := NodeIs(m, h, n, cols, done, made, b, x);
    var i, v := made[r].0, made[r].1;
    CandidateNames(b, done, made, r);
    HeadersDiffer(m, h, cols, done, i, v);
    forall c | 1 <= c <= h
      ensures c in Cols(m, x) <==> Uses(i, v, m[c].name)
    {
      UsesHeader(m, h, cols, done, i, v, c);
    }
    assert Cols(m, x) <= e.H by { HeadersInRange(cols, i, v, h); }
  }

  lemma HeadersInRange(cols: seq<nat>, i: nat, v: int, h: nat)
    requires |cols| == 400 && i < 81 && 1 <= v <= 9
    requires 1 <= cols[i] <= h && 1 <= cols[NameOf(Row, UnitOf(Row, i), v)] <= h
    requires 1 <= cols[NameOf(Column, UnitOf(Column, i), v)] <= h && 1 <= cols[NameOf(Box, UnitOf(Box, i), v)] <= h
    ensures HeadersOf(cols, i, v) <= Range(1, h + 1)
  {
  }

  /** The finished mesh encodes the board. */
  lemma MeshEncodes(m: Nodes, h: nat, n: nat, cols: seq<nat>, done: set<int>, made: seq<(nat, int)>, b: Board)
    requires RowsBuilt(m, h, n, cols, done, made) && Complete(b, done, made)
    requires InRange(m) && h < n <= |m| && forall x: nat | h < x < n :: CellOf(m, x) >= 0
    ensures Encodes(NamedOf(m, h, n), b)
  {
    hide RowAt, CellOf, ValueOf, Horizontal, Columns, Names, Cols, RowMatches, NamesMatch, RowNode, WellNamed, Candidate, HeadersOf;
    var e := NamedOf(m, h, n);
    FrameRange(m, h, n, cols, done);
    MeshNames(m, h, n, cols, done, made, b);
    forall x | x in e.M
      ensures RowMatches(e, b, x)
    {
      MeshRow(m, h, n, cols, done, made, b, x);
    }
    forall i: nat, v | Candidate(b, i, v)
      ensures exists x :: x in e.canon && x in e.cell && x in e.val && e.cell[x] == i && e.val[x] == v
    {
      var r :| 0 <= r < |made| && made[r] == (i, v);
      var x := h + 1 + 4 * r;
      var r' := NodeIs(m, h, n, cols, done, made, b, x);
      CanonOf(m, h, n, cols, made, r);
      assert r' == r;
      assert x in e.canon;
    }
    forall x, y | x in e.canon && y in e.canon && e.cell[x] == e.cell[y] && e.val[x] == e.val[y]
      ensures x == y
    {
      var r := NodeIs(m, h, n, cols, done, made, b, x);
      var r' := NodeIs(m, h, n, cols, done, made, b, y);
      assert made[r] == made[r'];
    }
  }

  lemma CanonOf(m: Nodes, h: nat, n: nat, cols: seq<nat>, made: seq<(nat, int)>, r: nat)
    requires |cols| == 400 && RowList(m, h, cols, made) && r < |made| && n <= |m| && n == h + 1 + 4 * |made|
    ensures m[h + 1 + 4 * r].name < 100
  {
    assert made[r] == made[r];
    assert RowAt(m, cols, h + 1 + 4 * r, made[r].0, made[r].1);
  }

  // ----- the order in which the columns are made -----

  /** (u', v') comes before (u, v). */
  predicate Before(u': nat, v': int, u: nat, v: int) { u' < u || (u' == u && v' < v) }

  /** The columns made before the missing values of (u, v) are looked at. */
  ghost predicate WantedBefore(b: Board, u: nat, v: int, nm: int)
    requires |b| == 81
  {
    || (0 <= nm < 81 && b[nm] == 0)
    || exists k: Kind, u': nat, v': int ::
        u' < 9 && 1 <= v' <= 9 && Before(u', v', u, v) && !Seen(b, k, u', v') && nm == NameOf(k, u', v')
  }

  ghost function Missing(b: Board, k: Kind, u: nat, v: int): (s: set<int>)
    requires |b| == 81
    ensures forall nm :: nm in s <==> !Seen(b, k, u, v) && nm == NameOf(k, u, v)
  {
    if Seen(b, k, u, v) then {} else {NameOf(k, u, v)}
  }

  ghost predicate DoneBefore(b: Board, u: nat, v: int, done: set<int>) {
    |b| == 81 && forall nm :: nm in done <==> WantedBefore(b, u, v, nm)
  }

  lemma NotYetDone(b: Board, u: nat, v: int, done: set<int>, k: Kind)
    requires DoneBefore(b, u, v, done) && u < 9 && 1 <= v <= 9
    ensures NameOf(k, u, v) !in done && 0 <= NameOf(k, u, v) < 400
  {
    if NameOf(k, u, v) in done {
      var k': Kind, u': nat, v': int :|
        u' < 9 && 1 <= v' <= 9 && Before(u', v', u, v) && !Seen(b, k', u', v') && NameOf(k, u, v) == NameOf(k', u', v');
      NameOfInjective(k, u, v, k', u', v');
    }
  }

  lemma DoneNext(b: Board, u: nat, v: int, done: set<int>)
    requires DoneBefore(b, u, v, done) && u < 9 && 1 <= v <= 9
    ensures DoneBefore(b, u, v + 1, done + Missing(b, Row, u, v) + Missing(b, Column, u, v) + Missing(b, Box, u, v))
  {
    hide NameOf, Seen;
    var done' := done + Missing(b, Row, u, v) + Missing(b, Column, u, v) + Missing(b, Box, u, v);
    forall nm
      ensures nm in done' <==> WantedBefore(b, u, v + 1, nm)
    {
      if WantedBefore(b, u, v + 1, nm) && nm !in done {
        assert !WantedBefore(b, u, v, nm);
        var k: Kind, u': nat, v': int :|
          u' < 9 && 1 <= v' <= 9 && Before(u', v', u, v + 1) && !Seen(b, k, u', v') && nm == NameOf(k, u', v');
        assert u' == u && v' == v;
        assert nm in Missing(b, k, u, v);
        assert k == Row || k == Column || k == Box;
      }
      if nm in done {
        assert WantedBefore(b, u, v, nm);
        if !(0 <= nm < 81 && b[nm] == 0) {
          var k: Kind, u': nat, v': int :|
            u' < 9 && 1 <= v' <= 9 && Before(u', v', u, v) && !Seen(b, k, u', v') && nm == NameOf(k, u', v');
          assert Before(u', v', u, v + 1);
        }
      }
      if nm in done' && nm !in done {
        var k := if nm in Missing(b, Row, u, v) then Row else if nm in Missing(b, Column, u, v) then Column else Box;
        assert nm in Missing(b, k, u, v);
        assert Before(u, v, u, v + 1);
        assert !Seen(b, k, u, v) && nm == NameOf(k, u, v);
      }
    }
  }

  lemma DoneNextUnit(b: Board, u: nat, done: set<int>)
    requires DoneBefore(b, u, 10, done)
    ensures DoneBefore(b, u + 1, 1, done)
  {
    hide NameOf, Seen;
    assert forall u': nat, v': int | 1 <= v' <= 9 :: Before(u', v', u, 10) <==> Before(u', v', u + 1, 1);
    forall nm
      ensures WantedBefore(b, u, 10, nm) <==> WantedBefore(b, u + 1, 1, nm)
    {
      if WantedBefore(b, u, 10, nm) && !(0 <= nm < 81 && b[nm] == 0) {
        var k: Kind, u': nat, v': int :|
          u' < 9 && 1 <= v' <= 9 && Before(u', v', u, 10) && !Seen(b, k, u', v') && nm == NameOf(k, u', v');
        assert Before(u', v', u + 1, 1);
      }
      if WantedBefore(b, u + 1, 1, nm) && !(0 <= nm < 81 && b[nm] == 0) {
        var k: Kind, u': nat, v': int :|
          u' < 9 && 1 <= v' <= 9 && Before(u', v', u + 1, 1) && !Seen(b, k, u', v') && nm == NameOf(k, u', v');
        assert Before(u', v', u, 10);
      }
    }
  }

  lemma DoneAll(b: Board, done: set<int>)
    requires DoneBefore(b, 9, 1, done)
    ensures forall nm :: nm in done <==> Wanted(b, nm)
  {
    hide NameOf, Seen;
    forall nm
      ensures WantedBefore(b, 9, 1, nm) <==> Wanted(b, nm)
    {
      if Wanted(b, nm) && !(0 <= nm < 81 && b[nm] == 0) {
        var k: Kind, u: nat, v: int :| u < 9 && 1 <= v <= 9 && !Seen(b, k, u, v) && nm == NameOf(k, u, v);
        assert Before(u, v, 9, 1);
      }
    }
  }

  // ----- the order in which the rows are made -----

  ghost predicate MadeBefore(b: Board, i: nat, v: int, made: seq<(nat, int)>) {
    && |b| == 81
    && (forall r | 0 <= r < |made| :: Candidate(b, made[r].0, made[r].1) && Before(made[r].0, made[r].1, i, v))
    && (forall i': nat, v' | Candidate(b, i', v') && Before(i', v', i, v) :: (i', v') in made)
    && (forall r, s | 0 <= r < s < |made| :: made[r] != made[s])
  }

  lemma MadeNext(b: Board, i: nat, v: int, made: seq<(nat, int)>)
    requires MadeBefore(b, i, v, made)
    ensures Candidate(b, i, v) ==> MadeBefore(b, i, v + 1, made + [(i, v)])
    ensures !Candidate(b, i, v) ==> MadeBefore(b, i, v + 1, made)
  {
    hide Candidate;
    var made' := if Candidate(b, i, v) then made + [(i, v)] else made;
    forall i': nat, v' | Candidate(b, i', v') && Before(i', v', i, v + 1)
      ensures (i', v') in made'
    {
      if !Before(i', v', i, v) {
        assert (i', v') == (i, v) && made'[|made|] == (i, v);
      } else {
        var r :| 0 <= r < |made| && made[r] == (i', v');
        assert made'[r] == (i', v');
      }
    }
  }

  lemma MadeNextCell(b: Board, i: nat, made: seq<(nat, int)>)
    requires MadeBefore(b, i, 10, made) || (|b| == 81 && i < 81 && b[i] != 0 && MadeBefore(b, i, 1, made))
    ensures MadeBefore(b, i + 1, 1, made)
  {
    hide Seen;
  }

  lemma MadeAll(b: Board, done: set<int>, made: seq<(nat, int)>)
    requires MadeBefore(b, 81, 1, made) && forall nm :: nm in done <==> Wanted(b, nm)
    ensures Complete(b, done, made)
  {
    hide Seen, Wanted;
    forall i: nat, v | Candidate(b, i, v)
      ensures (i, v) in made
    {
      assert Before(i, v, 81, 1);
    }
  }

  // ----- writing a cover into the board -----

  /** Rows of a cover that fill the same cell are one and the same. */
  lemma CellsDiffer(e: Named, b: Board, S: set<nat>, x: nat, y: nat)
    requires Encodes(e, b) && IsCover(e.M, e.H, S) && x in S && y in S
    requires e.cell[x] == e.cell[y]
    ensures x == y
  {
    hide NamesMatch, Candidate, Wanted, NameOf, UnitOf;
    if x != y {
      assert RowMatches(e, b, x) && RowMatches(e, b, y);
      var c := HeaderOfCell(e, b, x);
    }
  }

  lemma HeaderOfCell(e: Named, b: Board, x: nat) returns (c: nat)
    requires Encodes(e, b) && x in e.M
    ensures c in e.H && c in e.name && RowMatches(e, b, x) && e.name[c] == e.cell[x]
  {
    assert RowMatches(e, b, x);
    assert Wanted(b, e.cell[x]);
    c :| c in e.H && c in e.name && e.name[c] == e.cell[x];
  }

  lemma {:induction false} FillAt(b: Board, m: Nodes, s: seq<nat>)
    requires |b| == 81 && Readable(m, s)
    requires forall j, k | 0 <= j < |s| && 0 <= k < |s| && CellOf(m, s[j]) == CellOf(m, s[k]) :: s[j] == s[k]
    ensures forall k | 0 <= k < |s| :: Fill(b, m, s)[CellOf(m, s[k])] == ValueOf(m, s[k])
    ensures forall i | 0 <= i < 81 && (forall k | 0 <= k < |s| :: CellOf(m, s[k]) != i) :: Fill(b, m, s)[i] == b[i]
  {
    hide CellOf, ValueOf, InRange;
    if s != [] {
      var n := |s| - 1;
      FillAt(b, m, s[..n]);
      forall k | 0 <= k < |s|
        ensures Fill(b, m, s)[CellOf(m, s[k])] == ValueOf(m, s[k])
      {
        if k < n {
          assert s[..n][k] == s[k];
        }
      }
    }
  }

  /** What the search wrote is the cover it found. */
  lemma FillWrites(m: Nodes, h: nat, n: nat, b: Board, s: seq<nat>)
    requires InRange(m) && h < n <= |m| && forall x: nat | h < x < n :: CellOf(m, x) >= 0
    requires Encodes(NamedOf(m, h, n), b) && IsCover(MatrixOf(m, h, n), Range(1, h + 1), SetOf(s)) && Readable(m, s)
    ensures Written(NamedOf(m, h, n), b, SetOf(s), Fill(b, m, s))
  {
    hide CellOf, ValueOf, Cols, NamesMatch, Wanted, Fill;
    var e := NamedOf(m, h, n);
    forall k | 0 <= k < |s|
      ensures h < s[k] < n && b[CellOf(m, s[k])] == 0
    {
      assert s[k] in SetOf(s);
      assert RowMatches(e, b, s[k]);
    }
    forall j, k | 0 <= j < |s| && 0 <= k < |s| && CellOf(m, s[j]) == CellOf(m, s[k])
      ensures s[j] == s[k]
    {
      CellsDiffer(e, b, SetOf(s), s[j], s[k]);
    }
    FillAt(b, m, s);
  }
}
