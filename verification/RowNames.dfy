/** Reading the rows of the mesh back as cells and values, and writing them into a board. */
module RowNames {
  import opened Mesh

  /** The row of x has one node named after a cell; the names of the others end in the value. */
  ghost predicate WellNamed(m: Nodes, x: nat)
    requires InRange(m) && x < |m|
  {
    exists a ::
      && 0 <= a < 4
      && 0 <= m[Mate(m, x, a)].name < 81
      && forall b | 0 <= b < 4 && b != a :: 100 <= m[Mate(m, x, b)].name
  }

  ghost function CellOf(m: Nodes, x: nat): (cell: int)
    requires InRange(m) && x < |m|
  {
    if m[Mate(m, x, 0)].name < 100 then m[Mate(m, x, 0)].name
    else if m[Mate(m, x, 1)].name < 100 then m[Mate(m, x, 1)].name
    else if m[Mate(m, x, 2)].name < 100 then m[Mate(m, x, 2)].name
    else m[Mate(m, x, 3)].name
  }

  /** The value read by the walk: from the last node before the cell was found, if any. */
  ghost function ValueOf(m: Nodes, x: nat): (v: int)
    requires InRange(m) && x < |m|
  {
    if m[Mate(m, x, 0)].name < 100 then m[Mate(m, x, 1)].name % 10
    else if m[Mate(m, x, 1)].name < 100 then m[Mate(m, x, 0)].name % 10
    else if m[Mate(m, x, 2)].name < 100 then m[Mate(m, x, 1)].name % 10
    else m[Mate(m, x, 2)].name % 10
  }

  /** The board after the rows s are written into it. */
  ghost function Fill(board: seq<int>, m: Nodes, s: seq<nat>): (b: seq<int>)
    requires InRange(m) && |board| == 81
    requires forall k | 0 <= k < |s| :: s[k] < |m| && 0 <= CellOf(m, s[k]) < 81
    ensures |b| == 81
  {
    if s == [] then board
    else Fill(board, m, s[..|s| - 1])[CellOf(m, s[|s| - 1]) := ValueOf(m, s[|s| - 1])]
  }

  ghost predicate AllNamed(m: Nodes, h: nat, n: nat) {
    InRange(m) && forall x: nat {:trigger WellNamed(m, x)} | h < x < n && x < |m| :: WellNamed(m, x)
  }

  lemma NamesCongruent(m: Nodes, m': Nodes, h: nat, n: nat)
    requires Shape(m, h, n) && SameRows(m, m', h) && InRange(m') && AllNamed(m, h, n)
    ensures AllNamed(m', h, n)
    ensures forall x: nat | h < x < n :: CellOf(m', x) == CellOf(m, x) && ValueOf(m', x) == ValueOf(m, x)
  {
    hide RowNode, Mate;
    forall x: nat | h < x < n
      ensures WellNamed(m', x) && CellOf(m', x) == CellOf(m, x) && ValueOf(m', x) == ValueOf(m, x)
    {
      RowCongruent(m, m', h, n, x);
      assert WellNamed(m, x);
      var a :|
        && 0 <= a < 4
        && 0 <= m[Mate(m, x, a)].name < 81
        && forall b | 0 <= b < 4 && b != a :: 100 <= m[Mate(m, x, b)].name;
      assert 0 <= m'[Mate(m', x, a)].name < 81;
    }
  }

  /** Some mate of a well-named row is its cell; the walk meets it after at most four steps. */
  lemma CellIndex(m: Nodes, x: nat) returns (a: nat)
    requires InRange(m) && x < |m| && WellNamed(m, x)
    ensures a < 4 && 0 <= m[Mate(m, x, a)].name < 81
    ensures forall b | 0 <= b < 4 && b != a :: 100 <= m[Mate(m, x, b)].name
    ensures CellOf(m, x) == m[Mate(m, x, a)].name
    ensures ValueOf(m, x) == m[Mate(m, x, if a == 0 then 1 else a - 1)].name % 10
  {
    var a' :|
      && 0 <= a' < 4
      && 0 <= m[Mate(m, x, a')].name < 81
      && forall b | 0 <= b < 4 && b != a' :: 100 <= m[Mate(m, x, b)].name;
    a := a';
    assert a == 0 || a == 1 || a == 2 || a == 3;
  }

  ghost predicate Readable(m: Nodes, s: seq<nat>) {
    InRange(m) && forall k | 0 <= k < |s| :: s[k] < |m| && 0 <= CellOf(m, s[k]) < 81
  }

  lemma StackReadable(m: Nodes, h: nat, n: nat, s: seq<nat>)
    requires Shape(m, h, n) && AllNamed(m, h, n) && forall k | 0 <= k < |s| :: h < s[k] < n
    ensures Readable(m, s)
  {
    forall k | 0 <= k < |s|
      ensures 0 <= CellOf(m, s[k]) < 81
    {
      assert WellNamed(m, s[k]);
      var a := CellIndex(m, s[k]);
    }
  }

  lemma {:induction false} FillCongruent(board: seq<int>, m: Nodes, m': Nodes, h: nat, n: nat, s: seq<nat>)
    requires Shape(m, h, n) && SameRows(m, m', h) && InRange(m') && AllNamed(m, h, n)
    requires forall k | 0 <= k < |s| :: h < s[k] < n
    requires |board| == 81
    ensures Readable(m, s) && Readable(m', s)
    ensures Fill(board, m', s) == Fill(board, m, s)
  {
    hide WellNamed, RowNode;
    NamesCongruent(m, m', h, n);
    StackReadable(m, h, n, s);
    if s != [] {
      FillCongruent(board, m, m', h, n, s[..|s| - 1]);
    }
  }
}
