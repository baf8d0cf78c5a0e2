/** The search on bit masks: free columns, and the two diagonals shifted by one at every row. */
module QueensMasks {
  import opened Queens
  import opened Words

  const MAX_QUEENS: nat := 20

  // ----- the three ways to be attacked -----

  ghost predicate InColumn(q: Placement, i: nat) {
    exists r :: 0 <= r < |q| && q[r] == i
  }

  ghost predicate OnDiagonal(q: Placement, i: nat) {
    exists r :: 0 <= r < |q| && q[r] - i == |q| - r
  }

  ghost predicate OnAntidiagonal(q: Placement, i: nat) {
    exists r :: 0 <= r < |q| && i - q[r] == |q| - r
  }

  lemma ThreeWays(q: Placement, i: nat)
    ensures Attacked(q, i) <==> InColumn(q, i) || OnDiagonal(q, i) || OnAntidiagonal(q, i)
  {
    forall r | 0 <= r < |q| && (q[r] == i || q[r] - i == |q| - r || i - q[r] == |q| - r)
      ensures Attacked(q, i)
    {
      assert Attack(r, q[r], |q|, i);
    }
  }

  lemma ColumnStep(q: Placement, c: nat, i: nat)
    ensures InColumn(q + [c], i) <==> InColumn(q, i) || i == c
  {
    var t := q + [c];
    if InColumn(q, i) {
      var r :| 0 <= r < |q| && q[r] == i;
      assert t[r] == i;
    }
    assert t[|q|] == c;
  }

  lemma DiagonalStep(q: Placement, c: nat, i: nat)
    ensures OnDiagonal(q + [c], i) <==> OnDiagonal(q, i + 1) || i + 1 == c
  {
    var t := q + [c];
    if OnDiagonal(q, i + 1) {
      var r :| 0 <= r < |q| && q[r] - (i + 1) == |q| - r;
      assert t[r] - i == |t| - r;
    }
    if OnDiagonal(t, i) {
      var r :| 0 <= r < |t| && t[r] - i == |t| - r;
      if r < |q| {
        assert q[r] - (i + 1) == |q| - r;
      }
    }
    assert t[|q|] == c;
  }

  lemma AntidiagonalStep(q: Placement, c: nat, i: nat)
    ensures OnAntidiagonal(q + [c], i) <==> i > 0 && (OnAntidiagonal(q, i - 1) || i - 1 == c)
  {
    var t := q + [c];
    if i > 0 && OnAntidiagonal(q, i - 1) {
      var r :| 0 <= r < |q| && (i - 1) - q[r] == |q| - r;
      assert i - t[r] == |t| - r;
    }
    if OnAntidiagonal(t, i) {
      var r :| 0 <= r < |t| && i - t[r] == |t| - r;
      if r < |q| {
        assert (i - 1) - q[r] == |q| - r;
      }
    }
    assert t[|q|] == c;
  }

  // ----- the masks -----

  /** The masks say which columns of the next row the queens of q attack. */
  ghost predicate Masks(q: Placement, columns: Word, diagonal: Word, antidiagonal: Word) {
    forall i: nat | i < 32 :: MasksAt(q, columns, diagonal, antidiagonal, i)
  }

  ghost predicate MasksAt(q: Placement, columns: Word, diagonal: Word, antidiagonal: Word, i: nat)
    requires i < 32
  {
    && (Has(columns, i) <==> InColumn(q, i))
    && (Has(diagonal, i) <==> OnDiagonal(q, i))
    && (Has(antidiagonal, i) <==> OnAntidiagonal(q, i))
  }

  lemma NoDiagonalThere(q: Placement)
    requires OnBoard(MAX_QUEENS, q)
    ensures !OnDiagonal(q, 32)
  {
  }

  /** One row further down, the diagonals have moved one column left and one column right. */
  lemma MasksStep(q: Placement, c: nat, columns: Word, diagonal: Word, antidiagonal: Word)
    requires Masks(q, columns, diagonal, antidiagonal) && c < 32
    requires !OnDiagonal(q, 32)
    ensures Masks(q + [c], Or(columns, Single(c)), Right(Or(diagonal, Single(c))), Left(Or(antidiagonal, Single(c))))
  {
    hide InColumn, OnDiagonal, OnAntidiagonal, Single, Or, Left, Right, Has;
    var m := Single(c);
    forall i: nat | i < 32
      ensures MasksAt(q + [c], Or(columns, m), Right(Or(diagonal, m)), Left(Or(antidiagonal, m)), i)
    {
      hide Masks, MasksAt;
      ColumnMoves(q, c, columns, diagonal, antidiagonal, i);
      DiagonalMoves(q, c, columns, diagonal, antidiagonal, i);
      AntidiagonalMoves(q, c, columns, diagonal, antidiagonal, i);
    }
  }

  lemma ColumnMoves(q: Placement, c: nat, columns: Word, diagonal: Word, antidiagonal: Word, i: nat)
    requires Masks(q, columns, diagonal, antidiagonal) && c < 32 && i < 32
    ensures Has(Or(columns, Single(c)), i) <==> InColumn(q + [c], i)
  {
    hide InColumn, OnDiagonal, OnAntidiagonal, Single, Or, Left, Right, Has;
    assert MasksAt(q, columns, diagonal, antidiagonal, i);
    HasOr(columns, Single(c), i);
    HasSingle(c, i);
    ColumnStep(q, c, i);
  }

  lemma DiagonalMoves(q: Placement, c: nat, columns: Word, diagonal: Word, antidiagonal: Word, i: nat)
    requires Masks(q, columns, diagonal, antidiagonal) && c < 32 && i < 32 && !OnDiagonal(q, 32)
    ensures Has(Right(Or(diagonal, Single(c))), i) <==> OnDiagonal(q + [c], i)
  {
    hide InColumn, OnDiagonal, OnAntidiagonal, Single, Or, Left, Right, Has;
    DiagonalStep(q, c, i);
    HasRight(Or(diagonal, Single(c)), i);
    var j: nat := i + 1;
    if j < 32 {
      assert MasksAt(q, columns, diagonal, antidiagonal, j);
      HasOr(diagonal, Single(c), j);
      HasSingle(c, j);
    }
  }

  lemma AntidiagonalMoves(q: Placement, c: nat, columns: Word, diagonal: Word, antidiagonal: Word, i: nat)
    requires Masks(q, columns, diagonal, antidiagonal) && c < 32 && i < 32
    ensures Has(Left(Or(antidiagonal, Single(c))), i) <==> OnAntidiagonal(q + [c], i)
  {
    hide InColumn, OnDiagonal, OnAntidiagonal, Single, Or, Left, Right, Has;
    AntidiagonalStep(q, c, i);
    HasLeft(Or(antidiagonal, Single(c)), i);
    if i > 0 {
      var j: nat := i - 1;
      assert MasksAt(q, columns, diagonal, antidiagonal, j);
      HasOr(antidiagonal, Single(c), j);
      HasSingle(c, j);
    }
  }

  /** What is still to be tried: the columns from lo on that are not attacked. */
  ghost predicate Remaining(n: nat, q: Placement, avail: Word, lo: nat) {
    forall i: nat | i < 32 :: Has(avail, i) <==> lo <= i < n && !Attacked(q, i)
  }

  lemma FirstRemaining(n: nat, q: Placement, columns: Word, diagonal: Word, antidiagonal: Word)
    requires n <= MAX_QUEENS && Masks(q, columns, diagonal, antidiagonal)
    ensures Remaining(n, q, Not(Or(Or(Or(columns, diagonal), antidiagonal), Not(LowBits(n)))), 0)
  {
    hide Attacked, InColumn, OnDiagonal, OnAntidiagonal, Single, Or, Not, LowBits, Has;
    forall i: nat | i < 32
      ensures Has(Not(Or(Or(Or(columns, diagonal), antidiagonal), Not(LowBits(n)))), i) <==> 0 <= i < n && !Attacked(q, i)
    {
      assert MasksAt(q, columns, diagonal, antidiagonal, i);
      ThreeWays(q, i);
      AvailableBit(columns, diagonal, antidiagonal, n, i);
    }
  }

  lemma AvailableBit(a: Word, b: Word, c: Word, n: nat, i: nat)
    requires n < 32 && i < 32
    ensures Has(Not(Or(Or(Or(a, b), c), Not(LowBits(n)))), i) <==> i < n && !Has(a, i) && !Has(b, i) && !Has(c, i)
  {
    hide Has, Zero, Or, Not, LowBits;
    HasNot(Or(Or(Or(a, b), c), Not(LowBits(n))), i);
    HasOr(Or(Or(a, b), c), Not(LowBits(n)), i);
    HasOr(Or(a, b), c, i);
    HasOr(a, b, i);
    HasNot(LowBits(n), i);
    HasLowBits(n, i);
  }

  /** The lowest bit is the next column to try, and clearing it moves past that column. */
  lemma NextRemaining(n: nat, q: Placement, avail: Word, lo: nat)
    requires n <= MAX_QUEENS && Remaining(n, q, avail, lo) && !Zero(avail)
    ensures var i := Lowest(avail);
            && lo <= i < n && !Attacked(q, i) && (forall j: nat | lo <= j < i :: Attacked(q, j))
            && Remaining(n, q, WithoutLowest(avail), i + 1)
  {
    hide Attacked, Has, Lowest, WithoutLowest, Zero;
    var i := Lowest(avail);
    forall j: nat | j < 32
      ensures i < 32 && Has(avail, i) && (j < i ==> !Has(avail, j))
      ensures Has(WithoutLowest(avail), j) <==> Has(avail, j) && j != i
    {
      HasLowest(avail, j);
    }
    assert i < 32 by { HasLowest(avail, 0); }
    assert Has(avail, i) by { HasLowest(avail, 0); }
    forall j: nat | lo <= j < i
      ensures Attacked(q, j)
    {
      assert !Has(avail, j);
    }
  }

  lemma NothingRemaining(n: nat, q: Placement, avail: Word, lo: nat)
    requires n <= MAX_QUEENS && Zero(avail) && Remaining(n, q, avail, lo)
    ensures forall j: nat | lo <= j < n :: Attacked(q, j)
  {
    hide Has, Zero, Attacked;
    ZeroHasNone(avail);
  }

  /** Attacked columns contribute nothing. */
  lemma {:induction false} SkipAttacked(n: nat, q: Placement, lo: nat, i: nat)
    requires |q| < n && lo <= i && forall j: nat | lo <= j < i :: Attacked(q, j)
    ensures |From(n, q, lo)| == |From(n, q, i)|
    decreases i - lo
  {
    hide From, Completions, Attacked;
    if lo < i {
      FromStep(n, q, lo);
      NoneWhenAttacked(n, q, lo);
      SkipAttacked(n, q, lo + 1, i);
    }
  }

  /** What one call of search adds. */
  ghost function Added(n: nat, q: Placement): (c: nat) {
    if |q| < n then |Completions(n, q)| else 0
  }

  class BackTracking {
    const n: nat
    const mask: Word
    var count: int

    ghost predicate Valid() { 0 < n <= MAX_QUEENS && mask == Not(LowBits(n)) }

    constructor (queens: nat)
      requires 0 < queens <= MAX_QUEENS
      ensures Valid() && n == queens && count == 0
    {
      n := queens;
      mask := Not(LowBits(queens));
      count := 0;
    }

    /** search: q are the queens in the rows above. */
    method Search(row: nat, columns: Word, diagonal: Word, antidiagonal: Word, ghost q: Placement)
      requires Valid() && row == |q| && OnBoard(n, q) && Safe(q) && Masks(q, columns, diagonal, antidiagonal)
      modifies this
      ensures count == old(count) + Added(n, q)
      decreases n - row
    {
      hide Masks, Remaining, Completions, From, Safe, Attacked;
      hide Single, LowBits, Lowest, WithoutLowest, Zero, Or, Not, Left, Right;
      var avail := Not(Or(Or(Or(columns, diagonal), antidiagonal), mask));
      FirstRemaining(n, q, columns, diagonal, antidiagonal);
      ghost var lo: nat := 0;
      if row < n {
        FromFirst(n, q);
      } else {
        FullRowStops(n, q, avail);
      }
      while !Zero(avail)
        invariant lo <= n && Remaining(n, q, avail, lo)
        invariant row == n ==> Zero(avail) && count == old(count)
        invariant row < n ==> count == old(count) + |Completions(n, q)| - |From(n, q, lo)|
        decreases n - lo
      {
        NextRemaining(n, q, avail, lo);
        var i := Lowest(avail);
        SkipAttacked(n, q, lo, i);
        FromStep(n, q, i);
        SafeStep(q, i);
        avail := WithoutLowest(avail);
        lo := i + 1;
        if row == n - 1 {
          OneWhenFull(n, q + [i]);
          count := count + 1;
        } else {
          var m := Single(i);
          NoDiagonalThere(q);
          MasksStep(q, i, columns, diagonal, antidiagonal);
          Search(row + 1, Or(columns, m), Right(Or(diagonal, m)), Left(Or(antidiagonal, m)), q + [i]);
        }
      }
      if row < n {
        NothingRemaining(n, q, avail, lo);
        SkipAttacked(n, q, lo, n);
        FromPast(n, q);
      }
    }
  }

  /** Below the last row there is no column left to try. */
  lemma FullRowStops(n: nat, q: Placement, avail: Word)
    requires n <= MAX_QUEENS && |q| == n && OnBoard(n, q) && Safe(q) && Remaining(n, q, avail, 0)
    ensures Zero(avail)
  {
    hide Has, Zero, Or, Not, LowBits;
    forall i: nat | i < 32
      ensures !Has(avail, i)
    {
      if i < n {
        AllTaken(n, q, i);
      }
    }
    ZeroHasNone(avail);
  }
}
