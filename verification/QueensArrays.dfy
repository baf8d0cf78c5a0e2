/** The search on boolean arrays, one flag per column and per diagonal. */
module QueensArrays {
  import opened Queens
  import opened QueensMasks

  ghost predicate DiagonalTaken(n: nat, q: Placement, d: int) {
    exists r :: 0 <= r < |q| && n + r - q[r] == d
  }

  ghost predicate AntidiagonalTaken(q: Placement, a: int) {
    exists r :: 0 <= r < |q| && r + q[r] == a
  }

  /** The flags are those of the queens of q. */
  ghost predicate Flags(n: nat, q: Placement, columns: seq<bool>, diagonal: seq<bool>, antidiagonal: seq<bool>) {
    && |columns| == MAX_QUEENS && |diagonal| == 2 * MAX_QUEENS && |antidiagonal| == 2 * MAX_QUEENS
    && (forall i: nat | i < MAX_QUEENS :: columns[i] <==> InColumn(q, i))
    && (forall d: nat | d < 2 * MAX_QUEENS :: diagonal[d] <==> DiagonalTaken(n, q, d))
    && (forall a: nat | a < 2 * MAX_QUEENS :: antidiagonal[a] <==> AntidiagonalTaken(q, a))
  }

  lemma FlagsTell(n: nat, q: Placement, columns: seq<bool>, diagonal: seq<bool>, antidiagonal: seq<bool>, i: nat)
    requires Flags(n, q, columns, diagonal, antidiagonal) && i < n <= MAX_QUEENS && n + |q| < 2 * MAX_QUEENS
    ensures Attacked(q, i) <==> columns[i] || antidiagonal[|q| + i] || diagonal[n + |q| - i]
  {
    ThreeWays(q, i);
    SameDiagonals(n, q, i);
  }

  /** Both searches mean the same two diagonals, named the other way round. */
  lemma SameDiagonals(n: nat, q: Placement, i: nat)
    ensures OnDiagonal(q, i) <==> AntidiagonalTaken(q, |q| + i)
    ensures OnAntidiagonal(q, i) <==> DiagonalTaken(n, q, n + |q| - i)
  {
    if AntidiagonalTaken(q, |q| + i) {
      var r :| 0 <= r < |q| && r + q[r] == |q| + i;
      assert q[r] - i == |q| - r;
    }
    if DiagonalTaken(n, q, n + |q| - i) {
      var r :| 0 <= r < |q| && n + r - q[r] == n + |q| - i;
      assert i - q[r] == |q| - r;
    }
    if OnDiagonal(q, i) {
      var r :| 0 <= r < |q| && q[r] - i == |q| - r;
      assert r + q[r] == |q| + i;
    }
    if OnAntidiagonal(q, i) {
      var r :| 0 <= r < |q| && i - q[r] == |q| - r;
      assert n + r - q[r] == n + |q| - i;
    }
  }

  lemma TakenStep(n: nat, q: Placement, i: nat, x: int)
    ensures DiagonalTaken(n, q + [i], x) <==> DiagonalTaken(n, q, x) || x == n + |q| - i
    ensures AntidiagonalTaken(q + [i], x) <==> AntidiagonalTaken(q, x) || x == |q| + i
  {
    var t := q + [i];
    assert t[|q|] == i;
    if DiagonalTaken(n, q, x) {
      var r :| 0 <= r < |q| && n + r - q[r] == x;
      assert n + r - t[r] == x;
    }
    if AntidiagonalTaken(q, x) {
      var r :| 0 <= r < |q| && r + q[r] == x;
      assert r + t[r] == x;
    }
  }

  lemma FlagsStep(n: nat, q: Placement, i: nat, columns: seq<bool>, diagonal: seq<bool>, antidiagonal: seq<bool>)
    requires Flags(n, q, columns, diagonal, antidiagonal) && i < n <= MAX_QUEENS && n + |q| < 2 * MAX_QUEENS
    ensures Flags(n, q + [i], columns[i := true], diagonal[n + |q| - i := true], antidiagonal[|q| + i := true])
  {
    hide InColumn, DiagonalTaken, AntidiagonalTaken;
    forall c: nat
      ensures InColumn(q + [i], c) <==> InColumn(q, c) || c == i
    {
      ColumnStep(q, i, c);
    }
    forall x: int
      ensures DiagonalTaken(n, q + [i], x) <==> DiagonalTaken(n, q, x) || x == n + |q| - i
      ensures AntidiagonalTaken(q + [i], x) <==> AntidiagonalTaken(q, x) || x == |q| + i
    {
      TakenStep(n, q, i, x);
    }
  }

  class BackTracking {
    const n: nat
    var count: int
    const columns: array<bool>
    const diagonal: array<bool>
    const antidiagonal: array<bool>

    ghost predicate Valid() {
      && 0 < n <= MAX_QUEENS
      && columns.Length == MAX_QUEENS && diagonal.Length == 2 * MAX_QUEENS && antidiagonal.Length == 2 * MAX_QUEENS
      && columns != diagonal && columns != antidiagonal && diagonal != antidiagonal
    }

    ghost predicate Shows(q: Placement)
      reads columns, diagonal, antidiagonal
    {
      Flags(n, q, columns[..], diagonal[..], antidiagonal[..])
    }

    constructor (queens: nat)
      requires 0 < queens <= MAX_QUEENS
      ensures Valid() && n == queens && count == 0 && Shows([])
      ensures fresh(columns) && fresh(diagonal) && fresh(antidiagonal)
    {
      n := queens;
      count := 0;
      columns := new bool[MAX_QUEENS](_ => false);
      diagonal := new bool[2 * MAX_QUEENS](_ => false);
      antidiagonal := new bool[2 * MAX_QUEENS](_ => false);
    }

    /** columns[i] = antidiagnoal[row + i] = diagnoal[d] = value */
    method Put(row: nat, i: nat, value: bool)
      requires Valid() && row < n && i < n
      modifies columns, diagonal, antidiagonal
      ensures columns[..] == old(columns[..])[i := value]
      ensures diagonal[..] == old(diagonal[..])[n + row - i := value]
      ensures antidiagonal[..] == old(antidiagonal[..])[row + i := value]
    {
      columns[i] := value;
      antidiagonal[row + i] := value;
      diagonal[n + row - i] := value;
    }

    method Search(row: nat, ghost q: Placement)
      requires Valid() && row == |q| && OnBoard(n, q) && Safe(q) && Shows(q) && (row < n || n < MAX_QUEENS)
      modifies this, columns, diagonal, antidiagonal
      ensures count == old(count) + Added(n, q)
      ensures columns[..] == old(columns[..]) && diagonal[..] == old(diagonal[..])
      ensures antidiagonal[..] == old(antidiagonal[..])
      decreases n - row
    {
      hide Flags, Completions, From, Safe, Attacked;
      if row < n {
        FromFirst(n, q);
      }
      for i := 0 to n
        invariant columns[..] == old(columns[..]) && diagonal[..] == old(diagonal[..])
        invariant antidiagonal[..] == old(antidiagonal[..])
        invariant row == n ==> count == old(count)
        invariant row < n ==> count == old(count) + |Completions(n, q)| - |From(n, q, i)|
      {
        var d := n + row - i;
        FlagsTell(n, q, columns[..], diagonal[..], antidiagonal[..], i);
        if row == n {
          AllTaken(n, q, i);
        } else {
          FromStep(n, q, i);
        }
        if !(columns[i] || antidiagonal[row + i] || diagonal[d]) {
          SafeStep(q, i);
          if row == n - 1 {
            OneWhenFull(n, q + [i]);
            count := count + 1;
          } else {
            FlagsStep(n, q, i, columns[..], diagonal[..], antidiagonal[..]);
            Put(row, i, true);
            Search(row + 1, q + [i]);
            Put(row, i, false);
          }
        } else {
          NoneWhenAttacked(n, q, i);
        }
      }
      if row < n {
        FromPast(n, q);
      }
    }
  }
}
