/** Covering and uncovering a column of any toroidal mesh: rows are rings of any length whose columns
    differ, and columns are rings in any order. */
module Rings {
  import opened Mesh

  // ----- vertical links -----

  /** The neighbours of x in its column are nodes of P that know x. */
  ghost predicate LinkedIn(m: Nodes, P: set<nat>, x: nat)
    requires InRange(m) && x < |m|
  {
    var d, u := m[x].down, m[x].up;
    d in P && u in P && m[d].up == x && m[u].down == x && m[d].col == m[x].col && m[u].col == m[x].col
  }

  ghost predicate Linked(m: Nodes, P: set<nat>) {
    && InRange(m)
    && (forall x | x in P :: x < |m|)
    && (forall x {:trigger LinkedIn(m, P, x)} | x in P && x < |m| :: LinkedIn(m, P, x))
  }

  /** Every row and the list of column c are as they were. */
  ghost predicate Same(m: Nodes, m': Nodes, c: nat) {
    && |m'| == |m|
    && forall i | 0 <= i < |m| ::
        && m'[i].left == m[i].left && m'[i].right == m[i].right && m'[i].col == m[i].col
        && (m[i].col == c ==> m'[i].up == m[i].up && m'[i].down == m[i].down)
  }

  /** The dance: relinking undoes unlinking, whatever j's neighbours are. */
  lemma RelinkUnlink(m: Nodes, j: nat)
    requires InRange(m) && j < |m| && m[m[j].down].up == j && m[m[j].up].down == j
    ensures InRange(Unlink(m, j)) && Relink(Unlink(m, j), j) == m
  {
    UnlinkFields(m, j);
    var m' := Unlink(m, j);
    hide Unlink;
    var m'' := Relink(m', j);
    forall i | 0 <= i < |m|
      ensures m''[i] == m[i]
    {
    }
  }

  lemma UnlinkLinked(m: Nodes, P: set<nat>, j: nat, c: nat)
    requires Linked(m, P) && j in P && m[j].col != c
    ensures Linked(Unlink(m, j), P - {j}) && Same(m, Unlink(m, j), c)
  {
    hide Unlink;
    assert LinkedIn(m, P, j);
    UnlinkFields(m, j);
    forall x | x in P - {j}
      ensures LinkedIn(Unlink(m, j), P - {j}, x)
    {
      assert LinkedIn(m, P, x);
      assert LinkedIn(m, P, m[x].down);
      assert LinkedIn(m, P, m[x].up);
    }
  }

  /** Nodes of P outside column c that differ. */
  ghost predicate Elsewhere(m: Nodes, P: set<nat>, c: nat, js: seq<nat>) {
    Distinct(js) && forall k | 0 <= k < |js| :: js[k] < |m| && js[k] in P && m[js[k]].col != c
  }

  lemma {:induction false} UnlinkAllLinked(m: Nodes, P: set<nat>, c: nat, js: seq<nat>)
    requires Linked(m, P) && Elsewhere(m, P, c, js)
    ensures Linked(UnlinkAll(m, js), P - SetOf(js)) && Same(m, UnlinkAll(m, js), c)
  {
    hide Unlink, LinkedIn;
    if js == [] {
      assert P - SetOf(js) == P;
    } else {
      var k := |js| - 1;
      var Q := P - SetOf(js[..k]);
      UnlinkAllLinked(m, P, c, js[..k]);
      NextElsewhere(P, js);
      UnlinkLinked(UnlinkAll(m, js[..k]), Q, js[k], c);
    }
  }

  lemma NextElsewhere(P: set<nat>, js: seq<nat>)
    requires Distinct(js) && js != [] && js[|js| - 1] in P
    ensures var k := |js| - 1;
            js[k] in P - SetOf(js[..k]) && P - SetOf(js[..k]) - {js[k]} == P - SetOf(js)
  {
    var k := |js| - 1;
    assert js[k] !in js[..k];
    assert js == js[..k] + [js[k]];
  }

  /** Each node comes back by one Relink. */
  lemma RelinkLast(m: Nodes, P: set<nat>, c: nat, js: seq<nat>)
    requires Linked(m, P) && Elsewhere(m, P, c, js) && js != []
    ensures Relink(UnlinkAll(m, js), js[|js| - 1]) == UnlinkAll(m, js[..|js| - 1])
  {
    var k := |js| - 1;
    var m1 := UnlinkAll(m, js[..k]);
    UnlinkAllLinked(m, P, c, js[..k]);
    assert js[k] in P - SetOf(js[..k]) by { assert js[k] !in js[..k]; }
    assert LinkedIn(m1, P - SetOf(js[..k]), js[k]);
    RelinkUnlink(m1, js[k]);
  }

  /** Whatever nodes were unlinked, relinking them in the opposite order restores the mesh. */
  lemma {:induction false} RelinkAllUnlinkAll(m: Nodes, P: set<nat>, c: nat, js: seq<nat>)
    requires Linked(m, P) && Elsewhere(m, P, c, js)
    ensures RelinkAll(UnlinkAll(m, js), js) == m
  {
    hide Linked, Relink;
    if js != [] {
      RelinkLast(m, P, c, js);
      RelinkAllUnlinkAll(m, P, c, js[..|js| - 1]);
    }
  }

  // ----- the header list -----

  lemma RelinkUnlinkHeader(m: Nodes, c: nat)
    requires InRange(m) && c < |m| && m[m[c].right].left == c && m[m[c].left].right == c
    ensures RelinkHeader(UnlinkHeader(m, c), c) == m
  {
    var m'' := RelinkHeader(UnlinkHeader(m, c), c);
    forall i | 0 <= i < |m|
      ensures m''[i] == m[i]
    {
    }
  }

  // ----- rows -----

  ghost predicate RingAt(m: Nodes, x: nat, s: seq<nat>, i: int)
    requires 0 <= i < |s| && s[i] < |m|
  {
    && m[s[i]].right == (if i == |s| - 1 then x else s[i + 1])
    && m[s[i]].left == (if i == 0 then x else s[i - 1])
  }

  /** s are the other nodes of the row of x, rightwards; no two nodes of the row share a column. */
  ghost predicate Ring(m: Nodes, x: nat, s: seq<nat>) {
    && x < |m| && (forall i | 0 <= i < |s| :: s[i] < |m|)
    && m[x].right == (if s == [] then x else s[0])
    && m[x].left == (if s == [] then x else s[|s| - 1])
    && (forall i {:trigger RingAt(m, x, s, i)} | 0 <= i < |s| :: RingAt(m, x, s, i))
    && (forall i | 0 <= i < |s| :: m[s[i]].col != m[x].col)
    && (forall i, j | 0 <= i < j < |s| :: m[s[i]].col != m[s[j]].col)
  }

  /** Different rows of one column have no node in common. */
  lemma {:induction false} RingsApart(m: Nodes, x: nat, s: seq<nat>, y: nat, t: seq<nat>, i: nat, j: nat)
    requires Ring(m, x, s) && Ring(m, y, t) && x != y && m[x].col == m[y].col && i < |s| && j < |t|
    ensures s[i] != t[j]
  {
    if s[i] == t[j] {
      assert RingAt(m, x, s, i) && RingAt(m, y, t, j);
      if i > 0 && j > 0 {
        RingsApart(m, x, s, y, t, i - 1, j - 1);
      }
    }
  }

  // ----- the nodes that a cover takes out -----

  ghost function Flat(rings: seq<seq<nat>>): (js: seq<nat>) {
    if rings == [] then [] else Flat(rings[..|rings| - 1]) + rings[|rings| - 1]
  }

  lemma {:induction false} InFlat(rings: seq<seq<nat>>, x: nat)
    requires x in Flat(rings)
    ensures exists k: nat :: k < |rings| && x in rings[k]
  {
    var n := |rings| - 1;
    if x in Flat(rings[..n]) {
      InFlat(rings[..n], x);
      var k: nat :| k < n && x in rings[..n][k];
      assert x in rings[k];
    } else {
      assert x in rings[n];
    }
  }

  /** A mesh in which column c can be covered. */
  ghost predicate WellFormed(m: Nodes, P: set<nat>, c: nat, rows: seq<nat>, rings: seq<seq<nat>>) {
    && Linked(m, P) && c < |m| && m[c].col == c
    && m[m[c].right].left == c && m[m[c].left].right == c
    && Chain(m, c, rows, c) && c !in rows && Distinct(rows)
    && |rings| == |rows|
    && (forall k | 0 <= k < |rows| :: RowOf(m, P, c, rows[k], rings[k]))
  }

  /** x is a row of column c, and its other nodes are s; it has nothing to do with the header list at c. */
  ghost predicate RowOf(m: Nodes, P: set<nat>, c: nat, x: nat, s: seq<nat>)
    requires InRange(m) && c < |m|
  {
    && Ring(m, x, s) && m[x].col == c && x != m[c].left && x != m[c].right
    && forall i | 0 <= i < |s| :: s[i] in P && s[i] != m[c].left && s[i] != m[c].right
  }

  /** All the nodes that go out differ. */
  lemma {:induction false} FlatElsewhere(m: Nodes, P: set<nat>, c: nat, rows: seq<nat>, rings: seq<seq<nat>>)
    requires InRange(m) && c < |m| && Distinct(rows) && |rings| == |rows|
    requires forall k | 0 <= k < |rows| :: RowOf(m, P, c, rows[k], rings[k])
    ensures Elsewhere(m, P, c, Flat(rings))
  {
    if rings != [] {
      var n := |rings| - 1;
      var front, s := Flat(rings[..n]), rings[n];
      FlatElsewhere(m, P, c, rows[..n], rings[..n]);
      forall a, b | 0 <= a < |front| && 0 <= b < |s|
        ensures front[a] != s[b]
      {
        InFlat(rings[..n], front[a]);
        var k: nat :| k < n && front[a] in rings[..n][k];
        var i :| 0 <= i < |rings[k]| && rings[k][i] == front[a];
        RingsApart(m, rows[k], rings[k], rows[n], s, i, b);
      }
      assert RowOf(m, P, c, rows[n], s);
      RowElsewhere(m, P, c, rows[n], s);
      JoinElsewhere(m, P, c, front, s);
    }
  }

  lemma RowElsewhere(m: Nodes, P: set<nat>, c: nat, x: nat, s: seq<nat>)
    requires InRange(m) && c < |m| && RowOf(m, P, c, x, s)
    ensures Elsewhere(m, P, c, s)
  {
  }

  lemma JoinElsewhere(m: Nodes, P: set<nat>, c: nat, s: seq<nat>, t: seq<nat>)
    requires Elsewhere(m, P, c, s) && Elsewhere(m, P, c, t)
    requires forall a, b | 0 <= a < |s| && 0 <= b < |t| :: s[a] != t[b]
    ensures Elsewhere(m, P, c, s + t)
  {
  }

  // ----- the course of a cover -----

  /** The nodes out after k rows and t nodes of the next one. */
  ghost function Part(rings: seq<seq<nat>>, k: nat, t: nat): (js: seq<nat>)
    requires k <= |rings| && if k < |rings| then t <= |rings[k]| else t == 0
  {
    Flat(rings[..k]) + if k < |rings| then rings[k][..t] else []
  }

  lemma {:induction false} FlatPrefix(rings: seq<seq<nat>>, k: nat)
    requires k <= |rings|
    ensures Flat(rings[..k]) <= Flat(rings)
  {
    if k == |rings| {
      assert rings[..k] == rings;
    } else {
      var n := |rings| - 1;
      FlatPrefix(rings[..n], k);
      assert rings[..n][..k] == rings[..k];
    }
  }

  lemma PartEnds(rings: seq<seq<nat>>)
    ensures Part(rings, 0, 0) == [] && Part(rings, |rings|, 0) == Flat(rings)
  {
    assert rings[..0] == [] && rings[..|rings|] == rings;
  }

  lemma PartNext(rings: seq<seq<nat>>, k: nat)
    requires k < |rings|
    ensures Part(rings, k, |rings[k]|) == Part(rings, k + 1, 0) == Flat(rings[..k + 1])
  {
    assert rings[..k + 1][..k] == rings[..k];
    assert rings[k][..|rings[k]|] == rings[k];
  }

  lemma PartPrefix(rings: seq<seq<nat>>, k: nat, t: nat)
    requires k <= |rings| && if k < |rings| then t <= |rings[k]| else t == 0
    ensures Part(rings, k, t) <= Flat(rings)
  {
    if k < |rings| {
      FlatPrefix(rings, k + 1);
      PartNext(rings, k);
    } else {
      PartEnds(rings);
    }
  }

  /** A cover of c in the mesh m, whose header list no longer holds c. */
  datatype Plan = Plan(m: Nodes, P: set<nat>, c: nat, rows: seq<nat>, rings: seq<seq<nat>>) {

    ghost predicate Sound() {
      && Linked(m, P) && c < |m|
      && Chain(m, c, rows, c) && c !in rows && |rings| == |rows|
      && (forall k | 0 <= k < |rows| :: rows[k] < |m| && m[rows[k]].col == c && Ring(m, rows[k], rings[k]))
      && m[c].col == c && Elsewhere(m, P, c, Flat(rings))
    }

    ghost predicate Place(k: nat, t: nat) {
      k <= |rings| && if k < |rings| then t <= |rings[k]| else t == 0
    }

    /** The mesh after k rows and t nodes of the next one. */
    ghost function At(k: nat, t: nat): (m': Nodes)
      requires Sound() && Place(k, t)
      ensures |m'| == |m| && InRange(m')
    {
      PartPrefix(rings, k, t);
      UnlinkAll(m, Part(rings, k, t))
    }
  }

  lemma ElsewherePrefix(m: Nodes, P: set<nat>, c: nat, s: seq<nat>, t: seq<nat>)
    requires Elsewhere(m, P, c, t) && s <= t
    ensures Elsewhere(m, P, c, s)
  {
  }

  /** Part way, every row and the list of c are untouched. */
  lemma Stage(p: Plan, k: nat, t: nat)
    requires p.Sound() && p.Place(k, t)
    ensures Same(p.m, p.At(k, t), p.c)
  {
    hide Chain, Ring, Linked, Elsewhere, Same, Part;
    PartPrefix(p.rings, k, t);
    ElsewherePrefix(p.m, p.P, p.c, Part(p.rings, k, t), Flat(p.rings));
    UnlinkAllLinked(p.m, p.P, p.c, Part(p.rings, k, t));
  }

  /** Each node goes out by one Unlink and comes back by one Relink. */
  lemma Move(p: Plan, k: nat, t: nat)
    requires p.Sound() && k < |p.rings| && t < |p.rings[k]|
    ensures p.rings[k][t] < |p.m|
    ensures p.At(k, t + 1) == Unlink(p.At(k, t), p.rings[k][t])
    ensures Relink(p.At(k, t + 1), p.rings[k][t]) == p.At(k, t)
  {
    hide Chain, Ring, Linked, Unlink, Relink;
    var j := p.rings[k][t];
    var js := Part(p.rings, k, t + 1);
    PartPrefix(p.rings, k, t + 1);
    ElsewherePrefix(p.m, p.P, p.c, js, Flat(p.rings));
    assert js[..|js| - 1] == Part(p.rings, k, t) && js[|js| - 1] == j;
    RelinkLast(p.m, p.P, p.c, js);
  }

  /** The links along the k-th row, at any stage. */
  lemma RowStage(p: Plan, k: nat, t: nat)
    requires p.Sound() && k < |p.rings| && t <= |p.rings[k]|
    ensures var m', row, s := p.At(k, t), p.rows[k], p.rings[k];
            && row < |m'| && m'[row].right == (if s == [] then row else s[0])
            && m'[row].left == (if s == [] then row else s[|s| - 1])
            && (t < |s| ==> s[t] < |m'| && s[t] != row && m'[s[t]].left == if t == 0 then row else s[t - 1])
            && (t > 0 ==> s[t - 1] < |m'| && s[t - 1] != row && m'[s[t - 1]].right == if t < |s| then s[t] else row)
  {
    hide Chain, Linked, Elsewhere, Plan.At;
    Stage(p, k, t);
    var row, s := p.rows[k], p.rings[k];
    assert Ring(p.m, row, s);
    if t < |s| {
      assert RingAt(p.m, row, s, t);
    }
    if t > 0 {
      assert RingAt(p.m, row, s, t - 1);
    }
  }

  /** The list of column c, after k rows. */
  lemma ColumnStage(p: Plan, k: nat)
    requires p.Sound() && k <= |p.rows|
    ensures forall q | 0 <= q < |p.rows| :: p.rows[q] != p.c && p.rows[q] < |p.m|
    ensures var m', rows, c := p.At(k, 0), p.rows, p.c;
            && c < |m'| && m'[c].down == (if |rows| == 0 then c else rows[0])
            && m'[c].up == (if |rows| == 0 then c else rows[|rows| - 1])
            && (k > 0 ==> m'[rows[k - 1]].down == (if k < |rows| then rows[k] else c))
            && (k < |rows| ==> m'[rows[k]].up == (if k > 0 then rows[k - 1] else c))
  {
    hide Ring, Linked, Elsewhere, Plan.At;
    Stage(p, k, 0);
    if k > 0 {
      assert ChainAt(p.m, p.c, p.rows, p.c, k - 1);
    }
    if k < |p.rows| {
      assert ChainAt(p.m, p.c, p.rows, p.c, k);
    }
  }

  // ----- the loops -----

  /** The three statements that take j out of its column. */
  method Detach(nodes: array<Node>, j: nat)
    requires InRange(nodes[..]) && j < nodes.Length
    modifies nodes
    ensures nodes[..] == Unlink(old(nodes[..]), j)
  {
    nodes[nodes[j].down] := nodes[nodes[j].down].(up := nodes[j].up);
    nodes[nodes[j].up] := nodes[nodes[j].up].(down := nodes[j].down);
    nodes[nodes[j].col] := nodes[nodes[j].col].(size := nodes[nodes[j].col].size - 1);
  }

  /** The three statements that put j back. */
  method Reattach(nodes: array<Node>, j: nat)
    requires InRange(nodes[..]) && j < nodes.Length
    modifies nodes
    ensures nodes[..] == Relink(old(nodes[..]), j)
  {
    nodes[nodes[j].col] := nodes[nodes[j].col].(size := nodes[nodes[j].col].size + 1);
    nodes[nodes[j].down] := nodes[nodes[j].down].(up := j);
    nodes[nodes[j].up] := nodes[nodes[j].up].(down := j);
  }

  method UnhookHeader(nodes: array<Node>, c: nat)
    requires InRange(nodes[..]) && c < nodes.Length
    modifies nodes
    ensures nodes[..] == UnlinkHeader(old(nodes[..]), c)
  {
    nodes[nodes[c].right] := nodes[nodes[c].right].(left := nodes[c].left);
    nodes[nodes[c].left] := nodes[nodes[c].left].(right := nodes[c].right);
  }

  method RehookHeader(nodes: array<Node>, c: nat)
    requires InRange(nodes[..]) && c < nodes.Length
    modifies nodes
    ensures nodes[..] == RelinkHeader(old(nodes[..]), c)
  {
    nodes[nodes[c].right] := nodes[nodes[c].right].(left := c);
    nodes[nodes[c].left] := nodes[nodes[c].left].(right := c);
  }

  lemma Ends(p: Plan)
    requires p.Sound()
    ensures InRange(p.m) && p.At(0, 0) == p.m
    ensures forall k | 0 <= k < |Flat(p.rings)| :: Flat(p.rings)[k] < |p.m|
    ensures p.At(|p.rings|, 0) == UnlinkAll(p.m, Flat(p.rings))
  {
    PartEnds(p.rings);
  }

  lemma NextRow(p: Plan, k: nat)
    requires p.Sound() && k < |p.rings|
    ensures p.At(k, |p.rings[k]|) == p.At(k + 1, 0)
  {
    hide Linked, Chain, Ring, Elsewhere;
    PartNext(p.rings, k);
  }

  /** The outer loop of cover. */
  method CoverRows(nodes: array<Node>, c: nat, ghost p: Plan)
    requires p.Sound() && p.c == c && nodes[..] == p.m
    modifies nodes
    ensures forall k | 0 <= k < |Flat(p.rings)| :: Flat(p.rings)[k] < |p.m|
    ensures nodes[..] == UnlinkAll(p.m, Flat(p.rings))
  {
    hide Linked, Chain, Ring, Elsewhere, Flat, UnlinkAll, Plan.At, InRange;
    Ends(p);
    ColumnStage(p, 0);
    var row := nodes[c].down;
    ghost var k := 0;
    while row != c
      invariant 0 <= k <= |p.rows| && row == if k < |p.rows| then p.rows[k] else c
      invariant nodes[..] == p.At(k, 0)
      decreases |p.rows| - k
    {
      CoverRow(nodes, row, p, k);
      k := k + 1;
      ColumnStage(p, k);
      row := nodes[row].down;
    }
  }

  /** The inner loop of cover, for the k-th row of column c. */
  method CoverRow(nodes: array<Node>, row: nat, ghost p: Plan, ghost k: nat)
    requires p.Sound() && k < |p.rows| && row == p.rows[k] && nodes[..] == p.At(k, 0)
    modifies nodes
    ensures nodes[..] == p.At(k + 1, 0)
  {
    hide Linked, Chain, Ring, Elsewhere, Flat, UnlinkAll, Plan.At, InRange;
    ghost var s := p.rings[k];
    RowStage(p, k, 0);
    var j := nodes[row].right;
    ghost var t := 0;
    while j != row
      invariant 0 <= t <= |s| && j == if t < |s| then s[t] else row
      invariant nodes[..] == p.At(k, t)
      decreases |s| - t
    {
      Move(p, k, t);
      Detach(nodes, j);
      t := t + 1;
      RowStage(p, k, t);
      j := nodes[j].right;
    }
    RowStage(p, k, t);
    NextRow(p, k);
  }

  /** The outer loop of uncover. */
  method UncoverRows(nodes: array<Node>, c: nat, ghost p: Plan)
    requires p.Sound() && p.c == c
    requires forall k | 0 <= k < |Flat(p.rings)| :: Flat(p.rings)[k] < |p.m|
    requires nodes[..] == UnlinkAll(p.m, Flat(p.rings))
    modifies nodes
    ensures nodes[..] == p.m
  {
    hide Linked, Chain, Ring, Elsewhere, Flat, UnlinkAll, Plan.At, InRange;
    Ends(p);
    ghost var k := |p.rows|;
    ColumnStage(p, k);
    var row := nodes[c].up;
    while row != c
      invariant 0 <= k <= |p.rows| && row == if k > 0 then p.rows[k - 1] else c
      invariant nodes[..] == p.At(k, 0)
      decreases k
    {
      k := k - 1;
      UncoverRow(nodes, row, p, k);
      ColumnStage(p, k);
      row := nodes[row].up;
    }
    ColumnStage(p, k);
  }

  /** The inner loop of uncover, for the k-th row of column c. */
  method UncoverRow(nodes: array<Node>, row: nat, ghost p: Plan, ghost k: nat)
    requires p.Sound() && k < |p.rows| && row == p.rows[k] && nodes[..] == p.At(k + 1, 0)
    modifies nodes
    ensures nodes[..] == p.At(k, 0)
  {
    hide Linked, Chain, Ring, Elsewhere, Flat, UnlinkAll, Plan.At, InRange;
    ghost var s := p.rings[k];
    NextRow(p, k);
    ghost var t := |s|;
    RowStage(p, k, t);
    var j := nodes[row].left;
    while j != row
      invariant 0 <= t <= |s| && j == if t > 0 then s[t - 1] else row
      invariant nodes[..] == p.At(k, t)
      decreases t
    {
      t := t - 1;
      Move(p, k, t);
      Reattach(nodes, j);
      RowStage(p, k, t);
      j := nodes[j].left;
    }
    RowStage(p, k, t);
  }

  /** The mesh after column c is covered. */
  ghost function Covered(m: Nodes, c: nat, rings: seq<seq<nat>>): (m': Nodes)
    requires InRange(m) && c < |m| && forall k | 0 <= k < |Flat(rings)| :: Flat(rings)[k] < |m|
    ensures |m'| == |m| && InRange(m')
  {
    UnlinkAll(UnlinkHeader(m, c), Flat(rings))
  }

  /** Taking c out of the header list leaves its rows and all columns. */
  lemma PlanSound(m: Nodes, P: set<nat>, c: nat, rows: seq<nat>, rings: seq<seq<nat>>)
    requires WellFormed(m, P, c, rows, rings)
    ensures Plan(UnlinkHeader(m, c), P, c, rows, rings).Sound()
    ensures forall k | 0 <= k < |Flat(rings)| :: Flat(rings)[k] < |m|
  {
    hide UnlinkHeader, Flat, Chain, Ring, LinkedIn, Elsewhere;
    var m1 := UnlinkHeader(m, c);
    Ranges(m, P, c, rows, rings);
    FlatElsewhere(m, P, c, rows, rings);
    UnlinkHeaderFields(m, c);
    LinkedSame(m, m1, P);
    ChainSame(m, m1, c, rows);
    ElsewhereSame(m, m1, P, c, Flat(rings));
    forall k | 0 <= k < |rows|
      ensures Ring(m1, rows[k], rings[k]) && rows[k] < |m1| && m1[rows[k]].col == c
    {
      assert RowOf(m, P, c, rows[k], rings[k]);
      RingSame(m, m1, P, c, rows[k], rings[k]);
    }
  }

  lemma Ranges(m: Nodes, P: set<nat>, c: nat, rows: seq<nat>, rings: seq<seq<nat>>)
    requires WellFormed(m, P, c, rows, rings)
    ensures InRange(m) && forall k | 0 <= k < |rows| :: rows[k] < |m|
  {
    hide LinkedIn, ChainAt, RowOf;
  }

  lemma LinkedSame(m: Nodes, m1: Nodes, P: set<nat>)
    requires Linked(m, P) && |m1| == |m| && InRange(m1)
    requires forall i | 0 <= i < |m| :: m1[i].up == m[i].up && m1[i].down == m[i].down && m1[i].col == m[i].col
    ensures Linked(m1, P)
  {
    forall x | x in P
      ensures LinkedIn(m1, P, x)
    {
      assert LinkedIn(m, P, x);
    }
  }

  lemma ChainSame(m: Nodes, m1: Nodes, c: nat, rows: seq<nat>)
    requires Chain(m, c, rows, c) && |m1| == |m|
    requires forall i | 0 <= i < |m| :: m1[i].up == m[i].up && m1[i].down == m[i].down
    ensures Chain(m1, c, rows, c)
  {
    forall k | 0 <= k < |rows|
      ensures ChainAt(m1, c, rows, c, k)
    {
      assert ChainAt(m, c, rows, c, k);
    }
  }

  lemma ElsewhereSame(m: Nodes, m1: Nodes, P: set<nat>, c: nat, js: seq<nat>)
    requires Elsewhere(m, P, c, js) && |m1| == |m| && forall i | 0 <= i < |m| :: m1[i].col == m[i].col
    ensures Elsewhere(m1, P, c, js) && forall k | 0 <= k < |js| :: js[k] < |m|
  {
  }

  lemma RingSame(m: Nodes, m1: Nodes, P: set<nat>, c: nat, x: nat, s: seq<nat>)
    requires InRange(m) && c < |m| && RowOf(m, P, c, x, s) && |m1| == |m|
    requires forall i | 0 <= i < |m| ::
               && m1[i].col == m[i].col
               && (i != m[c].right ==> m1[i].left == m[i].left) && (i != m[c].left ==> m1[i].right == m[i].right)
    ensures Ring(m1, x, s)
  {
    forall i | 0 <= i < |s|
      ensures RingAt(m1, x, s, i)
    {
      assert RingAt(m, x, s, i);
    }
  }

  /** Uncovering takes back a cover exactly: every link and every size. */
  lemma UncoverCover(m: Nodes, P: set<nat>, c: nat, rows: seq<nat>, rings: seq<seq<nat>>)
    requires WellFormed(m, P, c, rows, rings)
    ensures forall k | 0 <= k < |Flat(rings)| :: Flat(rings)[k] < |m|
    ensures RelinkHeader(RelinkAll(Covered(m, c, rings), Flat(rings)), c) == m
  {
    hide UnlinkHeader, RelinkHeader, Flat, Chain, RowOf, LinkedIn, Elsewhere, UnlinkAll, RelinkAll;
    PlanSound(m, P, c, rows, rings);
    assert Plan(UnlinkHeader(m, c), P, c, rows, rings).Sound();
    RelinkAllUnlinkAll(UnlinkHeader(m, c), P, c, Flat(rings));
    RelinkUnlinkHeader(m, c);
  }

  /** cover, on any well-formed mesh. */
  method Cover(nodes: array<Node>, c: nat, ghost P: set<nat>, ghost rows: seq<nat>, ghost rings: seq<seq<nat>>)
    requires WellFormed(nodes[..], P, c, rows, rings)
    modifies nodes
    ensures forall k | 0 <= k < |Flat(rings)| :: Flat(rings)[k] < nodes.Length
    ensures nodes[..] == Covered(old(nodes[..]), c, rings)
  {
    hide Chain, RowOf, Flat, UnlinkAll, UnlinkHeader;
    ghost var m := nodes[..];
    PlanSound(m, P, c, rows, rings);
    UnhookHeader(nodes, c);
    CoverRows(nodes, c, Plan(UnlinkHeader(m, c), P, c, rows, rings));
  }

  /** uncover gives back the mesh from before the cover: every link and every size. */
  method Uncover(nodes: array<Node>, c: nat, ghost m: Nodes, ghost P: set<nat>, ghost rows: seq<nat>, ghost rings: seq<seq<nat>>)
    requires WellFormed(m, P, c, rows, rings)
    requires forall k | 0 <= k < |Flat(rings)| :: Flat(rings)[k] < |m|
    requires nodes[..] == Covered(m, c, rings)
    modifies nodes
    ensures nodes[..] == m
  {
    hide Chain, RowOf, Flat, UnlinkAll, UnlinkHeader, RelinkHeader;
    PlanSound(m, P, c, rows, rings);
    UncoverRows(nodes, c, Plan(UnlinkHeader(m, c), P, c, rows, rings));
    RelinkUnlinkHeader(m, c);
    RehookHeader(nodes, c);
  }
}
