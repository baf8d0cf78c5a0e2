/** The toroidal mesh of Knuth's dancing links, as a value.

    Nodes are indices into one array.  Index 0 is the root, indices 1..h are the column
    headers and indices h+1..n-1 are the nodes of the rows; every row has four nodes.
    Links are cyclic.  Headers and nodes are numbered in the order in which they are
    appended, so a list that is read rightwards (headers) or downwards (a column) is
    increasing until it returns to its anchor. */
module Mesh {

  datatype Node = Node(left: nat, right: nat, up: nat, down: nat, col: nat, name: int, size: int)

  type Nodes = seq<Node>

  ghost predicate InRange(m: Nodes) {
    forall i | 0 <= i < |m| ::
      m[i].left < |m| && m[i].right < |m| && m[i].up < |m| && m[i].down < |m| && m[i].col < |m|
  }

  // ----- rows: their links never change -----

  /** Row nodes form cycles of four whose columns are pairwise distinct. */
  ghost predicate RowNode(m: Nodes, h: nat, n: nat, i: nat)
    requires n <= |m| && i < n
  {
    && 1 <= m[i].col <= h
    && h < m[i].right < n
    && h < m[i].left < n
    && m[m[i].right].left == i
    && m[m[i].left].right == i
    && m[m[i].right].right < n
    && m[m[m[i].right].right].right == m[i].left
    && m[i].col != m[m[i].right].col
    && m[i].col != m[m[m[i].right].right].col
  }

  ghost predicate Shape(m: Nodes, h: nat, n: nat) {
    && h < n <= |m|
    && InRange(m)
    && (forall i | 0 <= i <= h :: m[i].col == i)
    && (forall i {:trigger RowNode(m, h, n, i)} | h < i < n :: RowNode(m, h, n, i))
  }

  /** The two meshes differ only in links that covering may change. */
  ghost predicate SameRows(m: Nodes, m': Nodes, h: nat) {
    && |m| == |m'|
    && (forall i | 0 <= i < |m| :: m'[i].col == m[i].col && m'[i].name == m[i].name)
    && (forall i | h < i < |m| :: m'[i].left == m[i].left && m'[i].right == m[i].right)
  }

  /** The node a steps to the right of x in its row. */
  ghost function Mate(m: Nodes, x: nat, a: int): (y: nat)
    requires InRange(m) && x < |m|
    ensures y < |m|
  {
    if a == 1 then m[x].right
    else if a == 2 then m[m[x].right].right
    else if a == 3 then m[x].left
    else x
  }

  /** The columns that the row of x covers. */
  ghost function Cols(m: Nodes, x: nat): (s: set<nat>)
    requires InRange(m) && x < |m|
  {
    {m[x].col, m[Mate(m, x, 1)].col, m[Mate(m, x, 2)].col, m[Mate(m, x, 3)].col}
  }

  lemma RowFacts(m: Nodes, h: nat, n: nat, x: nat)
    requires Shape(m, h, n) && h < x < n
    ensures forall a | 0 <= a < 4 :: h < Mate(m, x, a) < n && 1 <= m[Mate(m, x, a)].col <= h
    ensures m[Mate(m, x, 3)].right == x && m[Mate(m, x, 1)].left == x
    ensures m[Mate(m, x, 2)].right == Mate(m, x, 3) && m[Mate(m, x, 3)].left == Mate(m, x, 2)
    ensures m[Mate(m, x, 2)].left == Mate(m, x, 1)
    ensures forall a, b | 0 <= a < b < 4 :: m[Mate(m, x, a)].col != m[Mate(m, x, b)].col
  {
    var a := m[x].right;
    assert RowNode(m, h, n, x);
    assert RowNode(m, h, n, a);
    var b := m[a].right;
    assert RowNode(m, h, n, b);
    var c := m[b].right;
    assert RowNode(m, h, n, c);
    assert c == m[x].left;
    var cx, ca, cb, cc := m[x].col, m[a].col, m[b].col, m[c].col;
    assert cx != ca && cx != cb && cx != cc && ca != cb && ca != cc && cb != cc;
  }

  /** All four nodes of a row see the same four columns. */
  lemma MateBack(m: Nodes, h: nat, n: nat, x: nat, a: int)
    requires Shape(m, h, n) && h < x < n && 1 <= a < 4
    ensures Mate(m, Mate(m, x, a), 4 - a) == x
    ensures Cols(m, Mate(m, x, a)) == Cols(m, x)
  {
    RowFacts(m, h, n, x);
    RowFacts(m, h, n, Mate(m, x, a));
    assert a == 1 || a == 2 || a == 3;
  }

  lemma ShapeCongruent(m: Nodes, m': Nodes, h: nat, n: nat)
    requires Shape(m, h, n) && SameRows(m, m', h) && InRange(m')
    ensures Shape(m', h, n)
  {
    forall i | h < i < n
      ensures RowNode(m', h, n, i)
    {
      assert RowNode(m, h, n, i);
      assert RowNode(m, h, n, m[i].right);
    }
  }

  lemma RowCongruent(m: Nodes, m': Nodes, h: nat, n: nat, x: nat)
    requires Shape(m, h, n) && SameRows(m, m', h) && InRange(m') && h < x < n
    ensures forall a :: Mate(m', x, a) == Mate(m, x, a)
    ensures Cols(m', x) == Cols(m, x)
  {
    assert RowNode(m, h, n, x);
    forall a ensures Mate(m', x, a) == Mate(m, x, a) {}
  }

  // ----- columns -----

  /** x stands in the vertical list of one of the columns K, given that P are the nodes
      that are linked vertically. */
  ghost predicate In(m: Nodes, K: set<nat>, P: set<nat>, x: nat) {
    x < |m| && (x in K || (x in P && m[x].col in K))
  }

  /** The links at x agree with the increasing cyclic list of its column. */
  ghost predicate LinkedAt(m: Nodes, K: set<nat>, P: set<nat>, x: nat)
    requires InRange(m) && x < |m|
  {
    var d, u, c := m[x].down, m[x].up, m[x].col;
    && In(m, K, P, d) && m[d].col == c && m[d].up == x
    && In(m, K, P, u) && m[u].col == c && m[u].down == x
    && (x < d || d == c)
    && (forall y: nat | In(m, K, P, y) && m[y].col == c :: y <= x || (x < d <= y))
  }

  /** The nodes of P that stand in column c. */
  ghost function Members(m: Nodes, P: set<nat>, c: nat): (s: set<nat>) {
    set x | x in P && x < |m| && m[x].col == c
  }

  /** The vertical lists of the columns K hold exactly the nodes of P, in increasing order,
      and the sizes of these columns are right. */
  ghost predicate Columns(m: Nodes, h: nat, n: nat, K: set<nat>, P: set<nat>) {
    && InRange(m) && h < n <= |m|
    && (forall c | c in K :: 1 <= c <= h)
    && (forall x | x in P :: h < x < n)
    && (forall x {:trigger LinkedAt(m, K, P, x)} | 0 <= x < |m| && In(m, K, P, x) :: LinkedAt(m, K, P, x))
    && (forall c | c in K :: m[c].size == |Members(m, P, c)|)
  }

  /** The same, for a mesh whose rows are complete. */
  ghost predicate Vertical(m: Nodes, h: nat, n: nat, K: set<nat>, P: set<nat>) {
    Shape(m, h, n) && Columns(m, h, n, K, P)
  }

  function SetUp(m: Nodes, i: nat, v: nat): (m': Nodes) requires i < |m| { m[i := m[i].(up := v)] }
  function SetDown(m: Nodes, i: nat, v: nat): (m': Nodes) requires i < |m| { m[i := m[i].(down := v)] }
  function SetLeft(m: Nodes, i: nat, v: nat): (m': Nodes) requires i < |m| { m[i := m[i].(left := v)] }
  function SetRight(m: Nodes, i: nat, v: nat): (m': Nodes) requires i < |m| { m[i := m[i].(right := v)] }
  function AddSize(m: Nodes, i: nat, k: int): (m': Nodes) requires i < |m| { m[i := m[i].(size := m[i].size + k)] }

  /** Takes j out of its column. */
  ghost function Unlink(m: Nodes, j: nat): (m': Nodes)
    requires InRange(m) && j < |m|
    ensures |m'| == |m| && InRange(m')
  {
    var m1 := SetUp(m, m[j].down, m[j].up);
    var m2 := SetDown(m1, m1[j].up, m1[j].down);
    AddSize(m2, m2[j].col, -1)
  }

  /** Puts j back between the neighbours that j itself still remembers. */
  ghost function Relink(m: Nodes, j: nat): (m': Nodes)
    requires InRange(m) && j < |m|
    ensures |m'| == |m| && InRange(m')
  {
    var m1 := AddSize(m, m[j].col, 1);
    var m2 := SetUp(m1, m1[j].down, j);
    SetDown(m2, m2[j].up, j)
  }

  lemma UnlinkFields(m: Nodes, j: nat)
    requires InRange(m) && j < |m| && m[m[j].down].up == j && m[m[j].up].down == j
    ensures var m' := Unlink(m, j);
            && |m'| == |m| && InRange(m')
            && (forall i | 0 <= i < |m| ::
              && m'[i].left == m[i].left && m'[i].right == m[i].right
              && m'[i].col == m[i].col && m'[i].name == m[i].name
              && m'[i].up == (if i == m[j].down then m[j].up else m[i].up)
              && m'[i].down == (if i == m[j].up then m[j].down else m[i].down)
              && m'[i].size == (if i == m[j].col then m[i].size - 1 else m[i].size))
  {
  }

  lemma LinkedNode(m: Nodes, h: nat, n: nat, K: set<nat>, P: set<nat>, j: nat)
    requires Vertical(m, h, n, K, P) && j in P && m[j].col in K
    ensures m[j].down != j && m[j].up != j
    ensures m[m[j].down].up == j && m[m[j].up].down == j
    ensures In(m, K, P, m[j].down) && In(m, K, P, m[j].up)
    ensures m[m[j].down].col == m[j].col && m[m[j].up].col == m[j].col
  {
    assert LinkedAt(m, K, P, j);
  }

  /** No horizontal link changed, and nothing outside the columns K. */
  ghost predicate KeepsOutside(m: Nodes, m': Nodes, K: set<nat>) {
    && |m'| == |m|
    && forall i | 0 <= i < |m| ::
        && m'[i].left == m[i].left && m'[i].right == m[i].right
        && (m[i].col !in K ==> m'[i] == m[i])
  }

  /** Unlinking a node of P leaves the lists of the other nodes of P. */
  lemma UnlinkVertical(m: Nodes, h: nat, n: nat, K: set<nat>, P: set<nat>, j: nat)
    requires Vertical(m, h, n, K, P) && j in P && m[j].col in K
    ensures Vertical(Unlink(m, j), h, n, K, P - {j})
    ensures SameRows(m, Unlink(m, j), h) && KeepsOutside(m, Unlink(m, j), K)
  {
    hide Unlink, RowNode, Members, Shape, In, LinkedAt;
    var m', P' := Unlink(m, j), P - {j};
    LinkedNode(m, h, n, K, P, j);
    UnlinkFields(m, j);
    ShapeCongruent(m, m', h, n);
    NodeIsNoHeader(m, h, n, K, P, j);
    forall x | 0 <= x < |m'| && In(m', K, P', x)
      ensures LinkedAt(m', K, P', x)
    {
      assert In(m, K, P, x) && x != j by { BypassedIn(m, m', K, P, j, x); }
      UnlinkLinkedAt(m, h, n, K, P, j, x);
    }
    forall c | c in K
      ensures m'[c].size == |Members(m', P', c)|
    {
      UnlinkMembers(m, m', P, j, c);
    }
  }

  lemma UnlinkMembers(m: Nodes, m': Nodes, P: set<nat>, j: nat, c: nat)
    requires j in P && j < |m| == |m'| && forall i | 0 <= i < |m| :: m'[i].col == m[i].col
    ensures |Members(m', P - {j}, c)| == |Members(m, P, c)| - (if c == m[j].col then 1 else 0)
  {
    if c == m[j].col {
      assert Members(m', P - {j}, c) == Members(m, P, c) - {j};
    } else {
      assert Members(m', P - {j}, c) == Members(m, P, c);
    }
  }

  /** m' is m with the neighbours of j linked to each other. */
  ghost predicate Bypassed(m: Nodes, m': Nodes, j: nat)
    requires j < |m|
  {
    && |m'| == |m|
    && forall i | 0 <= i < |m| ::
        && m'[i].col == m[i].col
        && m'[i].up == (if i == m[j].down then m[j].up else m[i].up)
        && m'[i].down == (if i == m[j].up then m[j].down else m[i].down)
  }

  lemma BypassedIn(m: Nodes, m': Nodes, K: set<nat>, P: set<nat>, j: nat, x: nat)
    requires j < |m| && Bypassed(m, m', j) && j !in K
    ensures In(m', K, P - {j}, x) <==> In(m, K, P, x) && x != j
  {
  }

  lemma BypassedLinks(m: Nodes, m': Nodes, K: set<nat>, P: set<nat>, j: nat, x: nat)
    requires InRange(m) && InRange(m') && j < |m| && j !in K && Bypassed(m, m', j) && x < |m| && x != j
    requires m[m[j].down].up == j && m[m[j].up].down == j && m[j].down != j && m[j].up != j
    requires m[m[j].down].col == m[j].col && m[m[j].up].col == m[j].col
    requires In(m, K, P, m[j].down) && In(m, K, P, m[j].up)
    requires LinkedAt(m, K, P, x)
    ensures var d, u := m'[x].down, m'[x].up;
            && In(m', K, P - {j}, d) && m'[d].col == m[x].col && m'[d].up == x
            && In(m', K, P - {j}, u) && m'[u].col == m[x].col && m'[u].down == x
  {
    hide In;
    BypassedIn(m, m', K, P, j, m'[x].down);
    BypassedIn(m, m', K, P, j, m'[x].up);
  }

  lemma UnlinkLinkedAt(m: Nodes, h: nat, n: nat, K: set<nat>, P: set<nat>, j: nat, x: nat)
    requires Vertical(m, h, n, K, P) && j in P && m[j].col in K
    requires In(m, K, P, x) && x != j
    ensures LinkedAt(Unlink(m, j), K, P - {j}, x)
  {
    hide Unlink, RowNode, Members, Shape, In;
    var m' := Unlink(m, j);
    LinkedNode(m, h, n, K, P, j);
    UnlinkFields(m, j);
    assert Bypassed(m, m', j);
    assert In(m, K, P, j) && j !in K by { NodeIsNoHeader(m, h, n, K, P, j); }
    hide Columns;
    assert LinkedAt(m, K, P, x) && LinkedAt(m, K, P, j) by { AllLinked(m, h, n, K, P, x); AllLinked(m, h, n, K, P, j); }
    BypassedLinks(m, m', K, P, j, x);
    BypassedOrder(m, m', K, P, j, x);
  }

  lemma NodeIsNoHeader(m: Nodes, h: nat, n: nat, K: set<nat>, P: set<nat>, j: nat)
    requires Columns(m, h, n, K, P) && j in P && j < |m| && m[j].col in K
    ensures In(m, K, P, j) && j !in K
  {
  }

  lemma AllLinked(m: Nodes, h: nat, n: nat, K: set<nat>, P: set<nat>, x: nat)
    requires Columns(m, h, n, K, P) && In(m, K, P, x)
    ensures InRange(m) && x < |m| && LinkedAt(m, K, P, x)
  {
  }

  lemma BypassedOrder(m: Nodes, m': Nodes, K: set<nat>, P: set<nat>, j: nat, x: nat)
    requires InRange(m) && InRange(m') && j < |m| && j !in K && Bypassed(m, m', j) && x < |m| && x != j
    requires In(m, K, P, j) && m[j].col in K && LinkedAt(m, K, P, x) && LinkedAt(m, K, P, j)
    ensures var d := m'[x].down;
            && (x < d || d == m[x].col)
            && forall y: nat | In(m', K, P - {j}, y) && m'[y].col == m[x].col :: y <= x || (x < d <= y)
  {
    forall y: nat | In(m', K, P - {j}, y) && m'[y].col == m[x].col
      ensures y <= x || (x < m'[x].down <= y)
    {
      BypassedIn(m, m', K, P, j, y);
    }
  }

  // ----- reading a column downwards -----

  /** What a walk down from x meets until it wraps round. */
  ghost function DownFrom(m: Nodes, x: nat): (s: seq<nat>)
    requires InRange(m) && x < |m|
    ensures forall k | 0 <= k < |s| :: x < s[k] < |m|
    decreases |m| - x
  {
    var d := m[x].down;
    if d <= x then [] else [d] + DownFrom(m, d)
  }

  ghost predicate ChainAt(m: Nodes, x: nat, s: seq<nat>, c: nat, k: int)
    requires 0 <= k < |s| && s[k] < |m|
  {
    && m[s[k]].down == (if k == |s| - 1 then c else s[k + 1])
    && m[s[k]].up == (if k == 0 then x else s[k - 1])
  }

  /** The links along s, which starts after x and ends at c. */
  ghost predicate Chain(m: Nodes, x: nat, s: seq<nat>, c: nat) {
    && x < |m| && c < |m| && (forall k | 0 <= k < |s| :: s[k] < |m|)
    && m[x].down == (if |s| == 0 then c else s[0])
    && m[c].up == (if |s| == 0 then x else s[|s| - 1])
    && (forall k {:trigger ChainAt(m, x, s, c, k)} | 0 <= k < |s| :: ChainAt(m, x, s, c, k))
  }

  ghost predicate Increasing(s: seq<nat>) { forall k, l | 0 <= k < l < |s| :: s[k] < s[l] }

  lemma {:induction false} DownIncreasing(m: Nodes, x: nat)
    requires InRange(m) && x < |m|
    ensures Increasing(DownFrom(m, x))
    decreases |m| - x
  {
    if m[x].down > x {
      DownIncreasing(m, m[x].down);
    }
  }

  /** A walk down from x meets exactly the later nodes of its column. */
  lemma {:induction false} DownMembers(m: Nodes, h: nat, n: nat, K: set<nat>, P: set<nat>, x: nat)
    requires Vertical(m, h, n, K, P) && In(m, K, P, x)
    ensures forall y :: y in DownFrom(m, x) <==> y in P && m[y].col == m[x].col && x < y
    decreases |m| - x
  {
    assert LinkedAt(m, K, P, x);
    var d := m[x].down;
    if d > x {
      DownMembers(m, h, n, K, P, d);
      assert DownFrom(m, x) == [d] + DownFrom(m, d);
      forall y | y in P && m[y].col == m[x].col && x < y
        ensures y in DownFrom(m, x)
      {
        assert In(m, K, P, y);
      }
    } else {
      forall y | y in P && m[y].col == m[x].col && x < y
        ensures false
      {
        assert In(m, K, P, y);
      }
    }
  }

  lemma {:induction false} DownChain(m: Nodes, h: nat, n: nat, K: set<nat>, P: set<nat>, x: nat)
    requires Vertical(m, h, n, K, P) && In(m, K, P, x)
    ensures Chain(m, x, DownFrom(m, x), m[x].col)
    decreases |m| - x
  {
    assert LinkedAt(m, K, P, x);
    var d, c := m[x].down, m[x].col;
    if d > x {
      DownChain(m, h, n, K, P, d);
      var s, s' := DownFrom(m, x), DownFrom(m, d);
      assert s == [d] + s';
      forall k | 0 <= k < |s|
        ensures ChainAt(m, x, s, c, k)
      {
        if k > 0 {
          assert ChainAt(m, d, s', c, k - 1);
        }
      }
    }
  }

  // ----- unlinking a list of nodes -----

  ghost function UnlinkAll(m: Nodes, js: seq<nat>): (m': Nodes)
    requires InRange(m) && forall k | 0 <= k < |js| :: js[k] < |m|
    ensures |m'| == |m| && InRange(m')
  {
    if js == [] then m else Unlink(UnlinkAll(m, js[..|js| - 1]), js[|js| - 1])
  }

  ghost function SetOf(js: seq<nat>): set<nat> { set j | j in js }

  ghost predicate Distinct(js: seq<nat>) { forall a, b | 0 <= a < b < |js| :: js[a] != js[b] }

  ghost predicate Removable(m: Nodes, K: set<nat>, P: set<nat>, js: seq<nat>) {
    && Distinct(js)
    && forall k | 0 <= k < |js| :: js[k] < |m| && js[k] in P && m[js[k]].col in K
  }

  /** Unlinking distinct nodes of P keeps the columns K, and touches no other column. */
  lemma {:induction false} UnlinkAllVertical(m: Nodes, h: nat, n: nat, K: set<nat>, P: set<nat>, js: seq<nat>)
    requires Vertical(m, h, n, K, P) && Removable(m, K, P, js)
    ensures Vertical(UnlinkAll(m, js), h, n, K, P - SetOf(js))
    ensures SameRows(m, UnlinkAll(m, js), h) && KeepsOutside(m, UnlinkAll(m, js), K)
  {
    if js == [] {
      assert P - SetOf(js) == P;
    } else {
      hide Vertical, Unlink, Removable, RowNode;
      var k := |js| - 1;
      var m1 := UnlinkAll(m, js[..k]);
      RemovablePrefix(m, K, P, js);
      UnlinkAllVertical(m, h, n, K, P, js[..k]);
      UnlinkVertical(m1, h, n, K, P - SetOf(js[..k]), js[k]);
      OutsideTransitive(m, m1, UnlinkAll(m, js), h, K);
    }
  }

  lemma RemovablePrefix(m: Nodes, K: set<nat>, P: set<nat>, js: seq<nat>)
    requires Removable(m, K, P, js) && js != []
    ensures var k := |js| - 1;
            && Removable(m, K, P, js[..k])
            && js[k] in P - SetOf(js[..k]) && js[k] < |m| && m[js[k]].col in K
            && P - SetOf(js[..k]) - {js[k]} == P - SetOf(js)
  {
  }

  lemma OutsideTransitive(m: Nodes, m1: Nodes, m2: Nodes, h: nat, K: set<nat>)
    requires SameRows(m, m1, h) && SameRows(m1, m2, h) && KeepsOutside(m, m1, K) && KeepsOutside(m1, m2, K)
    ensures SameRows(m, m2, h) && KeepsOutside(m, m2, K)
  {
  }

  /** Puts the nodes back, the last one first. */
  ghost function RelinkAll(m: Nodes, js: seq<nat>): (m': Nodes)
    requires InRange(m) && forall k | 0 <= k < |js| :: js[k] < |m|
    ensures |m'| == |m| && InRange(m')
    decreases |js|
  {
    if js == [] then m else RelinkAll(Relink(m, js[|js| - 1]), js[..|js| - 1])
  }

  // ----- the header list -----

  ghost predicate HLinkedAt(m: Nodes, H: set<nat>, x: nat)
    requires InRange(m) && x < |m|
  {
    var r, l := m[x].right, m[x].left;
    && (r in H || r == 0) && m[r].left == x
    && (l in H || l == 0) && m[l].right == x
    && (x < r || r == 0)
    && (forall y | y in H :: y <= x || (x < r <= y))
  }

  ghost predicate Horizontal(m: Nodes, H: set<nat>) {
    && InRange(m) && |m| > 0
    && (forall x | x in H :: 0 < x < |m|)
    && (forall x {:trigger HLinkedAt(m, H, x)} | 0 <= x < |m| && (x in H || x == 0) :: HLinkedAt(m, H, x))
  }

  ghost function UnlinkHeader(m: Nodes, c: nat): (m': Nodes)
    requires InRange(m) && c < |m|
    ensures |m'| == |m| && InRange(m')
  {
    var m1 := SetLeft(m, m[c].right, m[c].left);
    SetRight(m1, m1[c].left, m1[c].right)
  }

  ghost function RelinkHeader(m: Nodes, c: nat): (m': Nodes)
    requires InRange(m) && c < |m|
    ensures |m'| == |m| && InRange(m')
  {
    var m1 := SetLeft(m, m[c].right, c);
    SetRight(m1, m1[c].left, c)
  }

  lemma UnlinkHeaderFields(m: Nodes, c: nat)
    requires InRange(m) && c < |m| && m[m[c].right].left == c && m[m[c].left].right == c
    ensures var m' := UnlinkHeader(m, c);
            && (forall i | 0 <= i < |m| ::
              && m'[i].up == m[i].up && m'[i].down == m[i].down && m'[i].size == m[i].size
              && m'[i].col == m[i].col && m'[i].name == m[i].name
              && m'[i].left == (if i == m[c].right then m[c].left else m[i].left)
              && m'[i].right == (if i == m[c].left then m[c].right else m[i].right))
  {
  }

  lemma UnlinkHeaderHorizontal(m: Nodes, H: set<nat>, c: nat)
    requires Horizontal(m, H) && c in H
    ensures m[c].right != c && m[c].left != c
    ensures Horizontal(UnlinkHeader(m, c), H - {c})
  {
    var m', H' := UnlinkHeader(m, c), H - {c};
    assert HLinkedAt(m, H, c);
    UnlinkHeaderFields(m, c);
    forall x | 0 <= x < |m'| && (x in H' || x == 0)
      ensures HLinkedAt(m', H', x)
    {
      UnlinkHeaderLinked(m, m', H, c, x);
    }
  }

  lemma UnlinkHeaderLinked(m: Nodes, m': Nodes, H: set<nat>, c: nat, x: nat)
    requires Horizontal(m, H) && c in H && InRange(m') && |m'| == |m| && x < |m|
    requires x != c && (x in H || x == 0)
    requires forall i | 0 <= i < |m| ::
               && m'[i].left == (if i == m[c].right then m[c].left else m[i].left)
               && m'[i].right == (if i == m[c].left then m[c].right else m[i].right)
    ensures HLinkedAt(m', H - {c}, x)
  {
    assert HLinkedAt(m, H, c);
    assert HLinkedAt(m, H, x);
    assert HLinkedAt(m, H, m[c].right);
    assert HLinkedAt(m, H, m[c].left);
  }

  /** The header list and the vertical lists do not interfere. */
  lemma HorizontalCongruent(m: Nodes, m': Nodes, H: set<nat>)
    requires Horizontal(m, H) && |m'| == |m| && InRange(m')
    requires forall i | 0 <= i < |m| :: m'[i].left == m[i].left && m'[i].right == m[i].right
    ensures Horizontal(m', H)
  {
    forall x | 0 <= x < |m'| && (x in H || x == 0)
      ensures HLinkedAt(m', H, x)
    {
      assert HLinkedAt(m, H, x);
    }
  }

  lemma VerticalCongruent(m: Nodes, m': Nodes, h: nat, n: nat, K: set<nat>, P: set<nat>)
    requires Vertical(m, h, n, K, P) && InRange(m') && SameRows(m, m', h)
    requires forall i | 0 <= i < |m| :: m'[i].up == m[i].up && m'[i].down == m[i].down && m'[i].size == m[i].size
    ensures Vertical(m', h, n, K, P)
  {
    ShapeCongruent(m, m', h, n);
    forall x | 0 <= x < |m'| && In(m', K, P, x)
      ensures LinkedAt(m', K, P, x)
    {
      assert LinkedAt(m, K, P, x);
    }
    forall c | c in K
      ensures m'[c].size == |Members(m', P, c)|
    {
      assert Members(m', P, c) == Members(m, P, c);
    }
  }

  /** Only the nodes of the columns K matter. */
  lemma VerticalFewer(m: Nodes, h: nat, n: nat, K: set<nat>, P: set<nat>, K': set<nat>, P': set<nat>)
    requires Vertical(m, h, n, K, P) && K' <= K
    requires forall x | x in P' :: h < x < n
    requires forall x: nat | x < |m| && m[x].col in K' :: x in P <==> x in P'
    ensures Vertical(m, h, n, K', P')
  {
    assert forall x: nat | x < |m| && m[x].col in K' :: In(m, K', P', x) <==> In(m, K, P, x);
    forall x | 0 <= x < |m| && In(m, K', P', x)
      ensures LinkedAt(m, K', P', x)
    {
      assert LinkedAt(m, K, P, x);
    }
    forall c | c in K'
      ensures m[c].size == |Members(m, P', c)|
    {
      assert Members(m, P', c) == Members(m, P, c);
    }
  }
}
