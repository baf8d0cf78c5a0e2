/** The backtracking sudoku solvers, which change the board in place: the basic one, the one that
    picks a cell of least arity, and the one that keeps the arities in a cache. */
module SudokuSolvers {
  import opened Grid
  import opened Neighbors
  import opened SudokuSearch
  import opened SudokuCache

  lemma FreeMeansAvailable(b: Board, occupied: array2<bool>, cell: nat, v: nat)
    requires |b| == 81 && Cached(b, occupied) && cell < 81 && b[cell] == 0 && 1 <= v < 10
    ensures !occupied[cell, v] <==> Available(b, v, cell)
  {
  }

  /** The empty cells below m, in increasing order. */
  ghost function EmptyBelow(b: Board, m: nat): (s: seq<nat>)
    requires |b| == 81 && m <= 81
    ensures |s| <= m
  {
    if m == 0 then [] else if b[m - 1] == 0 then EmptyBelow(b, m - 1) + [m - 1] else EmptyBelow(b, m - 1)
  }

  ghost predicate ListsEmpty(b: Board, m: nat, s: seq<nat>)
    requires |b| == 81 && m <= 81
  {
    && (forall i | 0 <= i < |s| :: s[i] < m && b[s[i]] == 0)
    && (forall i, j | 0 <= i < j < |s| :: s[i] < s[j])
    && (forall c: nat | c < m && b[c] == 0 :: c in s)
  }

  lemma {:induction false} EmptyBelowIsEmpty(b: Board, m: nat)
    requires |b| == 81 && m <= 81
    ensures ListsEmpty(b, m, EmptyBelow(b, m))
  {
    if m != 0 {
      EmptyBelowIsEmpty(b, m - 1);
      var s := EmptyBelow(b, m - 1);
      assert EmptyBelow(b, m) == if b[m - 1] == 0 then s + [m - 1] else s;
      hide EmptyBelow;
    }
  }

  lemma StoreSpace(b: Board, was: Spaces, m: nat)
    requires |b| == 81 && m < 81 && AreSpaces(was)
    ensures var s := EmptyBelow(b, m);
            if b[m] == 0 then
              |EmptyBelow(b, m + 1)| == |s| + 1 && (s + was[|s|..])[|s| := m] == EmptyBelow(b, m + 1) + was[|s| + 1..]
            else EmptyBelow(b, m + 1) == s
  {
    var s := EmptyBelow(b, m);
    hide AreSpaces;
    if b[m] == 0 {
      assert (s + was[|s|..])[|s| := m] == s + [m] + was[|s| + 1..];
    }
  }

  /** What find_spaces makes of the array that was there: all the empty cells, in increasing order, come first. */
  ghost predicate StartsFrom(b: Board, was: Spaces, sp: Spaces, n: nat) {
    |b| == 81 && n == |EmptyBelow(b, 81)| <= |was| && sp == EmptyBelow(b, 81) + was[n..]
  }

  /** The order of cells that a new solver starts from. */
  ghost function Start(b: Board): (sp: Spaces)
    requires |b| == 81
    ensures |sp| == 81
  {
    EmptyBelow(b, 81) + seq(81 - |EmptyBelow(b, 81)|, _ => 0)
  }

  ghost function Empties(b: Board): (n: nat)
    requires |b| == 81
    ensures n <= 81
  {
    |EmptyBelow(b, 81)|
  }

  lemma StartsNew(b: Board, zeros: Spaces, sp: Spaces, n: nat)
    requires zeros == seq(81, _ => 0) && StartsFrom(b, zeros, sp, n)
    ensures sp == Start(b) && n == Empties(b) && Open(b, sp, n, 0) && Cells(sp, 0, n) == EmptyCells(b)
  {
    StartsOpen(b, zeros, sp, n);
    hide EmptyBelow, Open, Cells, EmptyCells;
    assert sp == Start(b);
  }

  lemma StartsOpen(b: Board, was: Spaces, sp: Spaces, n: nat)
    requires StartsFrom(b, was, sp, n) && AreSpaces(was)
    ensures Open(b, sp, n, 0) && Cells(sp, 0, n) == EmptyCells(b)
  {
    hide EmptyBelow;
    var e := EmptyBelow(b, 81);
    EmptyBelowIsEmpty(b, 81);
    assert forall i | 0 <= i < |sp| :: sp[i] == if i < n then e[i] else was[i];
    forall i, j | 0 <= i < j < n
      ensures sp[i] != sp[j]
    {
      assert e[i] < e[j];
    }
    forall c | c in EmptyCells(b)
      ensures c in Cells(sp, 0, n)
    {
      var i :| 0 <= i < |e| && e[i] == c;
      assert sp[i] == c;
    }
  }

  /** The givens in the first m cells. */
  ghost function FirstGivens(b: Board, m: nat): (p: Board)
    requires |b| == 81
    ensures |p| == 81
  {
    seq(81, i requires 0 <= i < 81 => if i < m then b[i] else 0)
  }

  lemma OneMoreGiven(b: Board, m: nat)
    requires |b| == 81 && m < 81
    ensures FirstGivens(b, m)[m] == 0 && FirstGivens(b, m + 1) == FirstGivens(b, m)[m := b[m]]
    ensures b[m] == 0 ==> FirstGivens(b, m + 1) == FirstGivens(b, m)
  {
  }

  lemma AllGivens(b: Board)
    requires |b| == 81
    ensures FirstGivens(b, 81) == b
  {
  }

  lemma EmptyCache(b: Board, occupied: array2<bool>, arity: array<int>)
    requires IsBoard(b) && occupied.Length0 == 81 && occupied.Length1 == 10 && arity.Length == 81
    requires forall c: nat, v: nat | c < 81 && v < 10 :: !occupied[c, v]
    requires forall c: nat | c < 81 :: arity[c] == 9
    ensures Cached(FirstGivens(b, 0), occupied) && Counted(FirstGivens(b, 0), arity)
  {
    var e := FirstGivens(b, 0);
    forall c: nat, v: nat | 1 <= v < 10
      ensures Available(e, v, c)
    {
    }
    forall c: nat
      ensures Arity(e, c) == 9
    {
      AllFree(e, c, 9);
    }
  }

  lemma {:induction false} AllFree(e: Board, c: nat, n: nat)
    requires |e| == 81 && n <= 9 && forall v: nat | 1 <= v <= 9 :: Available(e, v, c)
    ensures CountFree(e, c, n) == n
  {
    if n != 0 {
      AllFree(e, c, n - 1);
    }
  }

  /** What the recursive call may assume, and what its failure leaves behind. */
  lemma HoldCell(b: Board, sp: Spaces, n: nat, k: nat, g: nat)
    requires Open(b, sp, n, k) && k < n && 1 <= g <= 9
    ensures b[sp[k]] == 0 && Open(b[sp[k] := g], sp, n, k + 1)
    ensures var r := Solve(true, b[sp[k] := g], sp, n, k + 1);
            !r.ok ==> r.board == b[sp[k] := g] && r.board[sp[k] := 0] == b
                      && r.spaces[k] == sp[k] && Open(b, r.spaces, n, k)
  {
    var r := Solve(true, b[sp[k] := g], sp, n, k + 1);
    SolveRestores(true, b[sp[k] := g], sp, n, k + 1);
    RearrangedLater(sp, r.spaces, n, k);
    hide Solve;
    OpenAgain(b, sp, r.spaces, n, k);
  }

  class Solver {
    const board: array<int>
    const spaces: array<nat>
    const neighbors: array2<nat>
    const occupied: array2<bool>
    const arity: array<int>
    var nspaces: nat

    ghost predicate Valid()
      reads this, board, spaces, neighbors
    {
      && board.Length == 81 && IsBoard(board[..])
      && spaces.Length == 81 && AreSpaces(spaces[..]) && nspaces <= 81
      && IsTable(neighbors)
      && occupied.Length0 == 81 && occupied.Length1 == 10 && arity.Length == 81
      && board as object != spaces && board != arity && arity as object != spaces
    }

    ghost predicate Coherent()
      requires board.Length == 81
      reads board, occupied, arity
    {
      Cached(board[..], occupied) && Counted(board[..], arity)
    }

    constructor (table: array2<nat>)
      requires IsTable(table)
      ensures Valid() && neighbors == table && fresh(board) && fresh(spaces) && fresh(occupied) && fresh(arity)
      ensures spaces[..] == seq(81, _ => 0)
    {
      neighbors := table;
      board := new int[81](_ => 0);
      spaces := new nat[81](_ => 0);
      occupied := new bool[81, 10]((_, _) => false);
      arity := new int[81](_ => 0);
      nspaces := 0;
    }

    /** input: afterwards the search starts from all the empty cells, in increasing order. */
    method Input(digits: string)
      requires Valid() && |digits| == 81 && forall i | 0 <= i < 81 :: '0' <= digits[i] <= '9'
      modifies this, board, spaces
      ensures Valid() && forall i | 0 <= i < 81 :: board[i] == digits[i] as int - '0' as int
      ensures StartsFrom(board[..], old(spaces[..]), spaces[..], nspaces)
    {
      ghost var sp := spaces[..];
      for cell := 0 to 81
        invariant Valid() && spaces[..] == sp
        invariant forall i | 0 <= i < cell :: board[i] == digits[i] as int - '0' as int
      {
        hide IsTable;
        board[cell] := digits[cell] as int - '0' as int;
      }
      FindSpaces();
    }

    method FindSpaces()
      requires Valid()
      modifies this, spaces
      ensures Valid() && board[..] == old(board[..]) && StartsFrom(board[..], old(spaces[..]), spaces[..], nspaces)
    {
      ghost var b, sp := board[..], spaces[..];
      nspaces := 0;
      for cell := 0 to 81
        invariant Valid() && board[..] == b && nspaces == |EmptyBelow(b, cell)| <= cell
        invariant spaces[..] == EmptyBelow(b, cell) + sp[nspaces..]
      {
        hide IsTable, EmptyBelow;
        StoreSpace(b, sp, cell);
        if board[cell] == 0 {
          ghost var before := spaces[..];
          spaces[nspaces] := cell;
          assert spaces[..] == before[nspaces := cell];
          nspaces := nspaces + 1;
        }
      }
    }

    /** init_cache */
    method InitCache()
      requires Valid()
      modifies occupied, arity
      ensures Valid() && board[..] == old(board[..]) && Coherent()
      ensures forall c: nat | c < 81 :: occupied[c, 0]
    {
      ghost var b := board[..];
      ClearCache();
      hide IsTable, Cached, Counted, FirstGivens;
      for cell := 0 to 81
        invariant Valid() && board[..] == b
        invariant Cached(FirstGivens(b, cell), occupied) && Counted(FirstGivens(b, cell), arity)
        invariant forall c: nat | c < cell :: occupied[c, 0]
      {
        InitCell(cell);
      }
      AllGivens(b);
    }

    method ClearCache()
      requires Valid()
      modifies occupied, arity
      ensures board[..] == old(board[..])
      ensures Cached(FirstGivens(board[..], 0), occupied) && Counted(FirstGivens(board[..], 0), arity)
    {
      forall c: nat, v: nat | c < 81 && v < 10 {
        occupied[c, v] := false;
      }
      forall c | 0 <= c < 81 {
        arity[c] := 9;
      }
      assert board[..] == old(board[..]);
      EmptyCache(board[..], occupied, arity);
    }

    method InitCell(cell: nat)
      requires Valid() && cell < 81
      requires Cached(FirstGivens(board[..], cell), occupied) && Counted(FirstGivens(board[..], cell), arity)
      requires forall c: nat | c < cell :: occupied[c, 0]
      modifies occupied, arity
      ensures board[..] == old(board[..])
      ensures Cached(FirstGivens(board[..], cell + 1), occupied) && Counted(FirstGivens(board[..], cell + 1), arity)
      ensures forall c: nat | c < cell + 1 :: occupied[c, 0]
    {
      hide IsTable, Available, Arity;
      ghost var b := board[..];
      OneMoreGiven(b, cell);
      hide FirstGivens;
      occupied[cell, 0] := true;
      var val := board[cell];
      if val > 0 {
        var _ := Mark(neighbors, occupied, arity, cell, val, FirstGivens(b, cell));
      }
    }

    method IsAvailable(guess: int, cell: nat) returns (free: bool)
      requires Valid() && cell < 81
      ensures free <==> Available(board[..], guess, cell)
    {
      ghost var all := NeighborsOf(cell);
      for i := 0 to 20
        invariant forall k | 0 <= k < i :: board[all[k]] != guess
      {
        var neighbor := neighbors[cell, i];
        if board[neighbor] == guess {
          assert Peers(cell, neighbor);
          return false;
        }
      }
      forall p: nat | Peers(cell, p)
        ensures board[..][p] != guess
      {
        assert p in all;
      }
      return true;
    }

    /** arity, recomputed from the board. */
    method CountArity(cell: nat) returns (n: nat)
      requires Valid() && cell < 81
      ensures n == Arity(board[..], cell)
    {
      ghost var b := board[..];
      var seen := SeenByPeers(cell);
      n := 0;
      for v := 1 to 10
        invariant n == CountFree(b, cell, v - 1)
      {
        hide Available;
        if !seen[v] {
          n := n + 1;
        }
      }
    }

    method SeenByPeers(cell: nat) returns (seen: array<bool>)
      requires Valid() && cell < 81
      ensures fresh(seen) && seen.Length == 10
      ensures forall v | 0 <= v < 10 :: seen[v] <==> !Available(board[..], v, cell)
    {
      ghost var b, all := board[..], NeighborsOf(cell);
      seen := new bool[10](_ => false);
      for i := 0 to 20
        invariant fresh(seen) && board[..] == b
        invariant forall v | 0 <= v < 10 :: seen[v] <==> exists k :: 0 <= k < i && b[all[k]] == v
      {
        var neighbor := neighbors[cell, i];
        seen[board[neighbor]] := true;
      }
      forall v | 0 <= v < 10
        ensures seen[v] <==> !Available(b, v, cell)
      {
        if !Available(b, v, cell) {
          var p: nat :| Peers(cell, p) && b[p] == v;
          var k :| 0 <= k < 20 && all[k] == p;
        }
      }
    }

    /** find_min_arity of the solver without a cache. */
    method FindMinArity(space: nat)
      requires Valid() && space < nspaces
      modifies spaces
      ensures Valid() && board[..] == old(board[..])
      ensures spaces[..] == Order(board[..], old(spaces[..]), nspaces, space)
      ensures PutsLeastFirst(board[..], old(spaces[..]), spaces[..], nspaces, space)
    {
      ghost var b, sp := board[..], spaces[..];
      var cell := spaces[space];
      var minSpace := space;
      var minArity := CountArity(cell);
      var s := space + 1;
      while s < nspaces && minArity > 1
        invariant space + 1 <= s <= nspaces && space <= minSpace < nspaces && minArity == Arity(b, sp[minSpace])
        invariant spaces[..] == sp && board[..] == b && Valid()
        invariant MinSpace(b, sp, nspaces, space + 1, space) == MinSpace(b, sp, nspaces, s, minSpace)
      {
        hide Arity;
        var cur := CountArity(spaces[s]);
        if cur < minArity {
          minArity := cur;
          minSpace := s;
        }
        s := s + 1;
      }
      OrderPutsLeastFirst(b, sp, nspaces, space);
      SwapSpaces(space, minSpace);
    }

    method SwapSpaces(i: nat, j: nat)
      requires spaces.Length == 81 && i < 81 && j < 81 && AreSpaces(spaces[..])
      modifies spaces
      ensures spaces[..] == Swapped(old(spaces[..]), i, j)
    {
      if i != j {
        spaces[j], spaces[i] := spaces[i], spaces[j];
      }
    }

    /** solve_sudoku_basic */
    method SolveBasic(k: nat) returns (ok: bool)
      requires Valid() && k <= nspaces && Open(board[..], spaces[..], nspaces, k)
      modifies board
      ensures Result(ok, board[..], spaces[..]) == Solve(false, old(board[..]), spaces[..], nspaces, k)
      ensures ok ==> Path(false, old(board[..]), spaces[..], board[..], nspaces, k)
      ensures Valid()
      decreases nspaces - k
    {
      hide Path, IsTable, Available, Rearranged, Solve, Try;
      ghost var b, sp := board[..], spaces[..];
      SolvePath(false, b, sp, nspaces, k);
      SolveUnfold(false, b, sp, nspaces, k);
      if k >= nspaces {
        return true;
      }
      var cell := spaces[k];
      for guess := 1 to 10
        invariant board[..] == b && Valid()
        invariant Solve(false, b, sp, nspaces, k) == Try(false, b, sp, nspaces, k, guess)
      {
        TryUnfold(false, b, sp, nspaces, k, guess);
        var free := IsAvailable(guess, cell);
        if free {
          SolveRestores(false, b[cell := guess], sp, nspaces, k + 1);
          assert board[cell] == 0;
          board[cell] := guess;
          assert board[..] == b[cell := guess];
          ok := SolveBasic(k + 1);
          if ok {
            return true;
          }
          assert board[cell] == guess;
          board[cell] := 0;
          assert board[..] == b;
        }
      }
      TryUnfold(false, b, sp, nspaces, k, 10);
      return false;
    }

    /** One guess of the solver without a cache. */
    method Guess(k: nat, cell: nat, guess: nat) returns (ok: bool)
      requires Valid() && k < nspaces && Open(board[..], spaces[..], nspaces, k)
      requires cell == spaces[k] && 1 <= guess <= 9
      modifies board, spaces
      ensures Valid()
      ensures var r := Solve(true, old(board[..])[cell := guess], old(spaces[..]), nspaces, k + 1);
              && ok == r.ok && spaces[..] == r.spaces
              && (ok ==> board[..] == r.board)
              && (!ok ==> board[..] == old(board[..]) == r.board[cell := 0]
                          && spaces[k] == cell && Open(board[..], spaces[..], nspaces, k))
      decreases nspaces - k, 0
    {
      hide IsTable;
      ghost var b, sp := board[..], spaces[..];
      HoldCell(b, sp, nspaces, k, guess);
      assert board[cell] == 0;
      board[cell] := guess;
      assert board[..] == b[cell := guess];
      ok := SolveMinArity(k + 1);
      if !ok {
        assert board[cell] == guess;
        board[cell] := 0;
        assert board[..] == b;
      }
    }

    /** solve_sudoku_min_arity */
    method SolveMinArity(k: nat) returns (ok: bool)
      requires Valid() && k <= nspaces && Open(board[..], spaces[..], nspaces, k)
      modifies board, spaces
      ensures Result(ok, board[..], spaces[..]) == Solve(true, old(board[..]), old(spaces[..]), nspaces, k)
      ensures ok ==> Path(true, old(board[..]), spaces[..], board[..], nspaces, k)
      ensures Valid()
      decreases nspaces - k, 1
    {
      hide Path, IsTable, Order, Available, Rearranged, Arity;
      SolvePath(true, board[..], spaces[..], nspaces, k);
      if k >= nspaces {
        return true;
      }
      ghost var b, sp := board[..], spaces[..];
      OrderRearranges(b, sp, nspaces, k);
      FindMinArity(k);
      var cell := spaces[k];
      for guess := 1 to 10
        invariant board[..] == b && Valid() && spaces[k] == cell && Open(b, spaces[..], nspaces, k)
        invariant Solve(true, b, sp, nspaces, k) == Try(true, b, spaces[..], nspaces, k, guess)
      {
        var free := IsAvailable(guess, cell);
        if free {
          ok := Guess(k, cell, guess);
          if ok {
            return true;
          }
        }
      }
      return false;
    }

    /** find_min_arity of the solver with a cache. */
    method FindMinCached(space: nat)
      requires Valid() && space < nspaces && Open(board[..], spaces[..], nspaces, space) && Counted(board[..], arity)
      modifies spaces
      ensures Valid() && board[..] == old(board[..])
      ensures spaces[..] == Order(board[..], old(spaces[..]), nspaces, space)
      ensures PutsLeastFirst(board[..], old(spaces[..]), spaces[..], nspaces, space)
    {
      ghost var b, sp := board[..], spaces[..];
      var cell := spaces[space];
      var minSpace := space;
      var minArity := arity[cell];
      var s := space + 1;
      while s < nspaces && minArity > 1
        invariant space + 1 <= s <= nspaces && space <= minSpace < nspaces && minArity == Arity(b, sp[minSpace])
        invariant spaces[..] == sp && board[..] == b && Valid()
        invariant MinSpace(b, sp, nspaces, space + 1, space) == MinSpace(b, sp, nspaces, s, minSpace)
      {
        hide Arity, IsTable;
        assert b[sp[s]] == 0;
        var cur := arity[spaces[s]];
        if cur < minArity {
          minArity := cur;
          minSpace := s;
        }
        s := s + 1;
      }
      OrderPutsLeastFirst(b, sp, nspaces, space);
      SwapSpaces(space, minSpace);
    }

    /** One guess: hold the cell, mark its peers, search on, and undo it all when that fails. */
    method HoldAndTry(k: nat, cell: nat, guess: nat) returns (ok: bool)
      requires Valid() && k < nspaces && Open(board[..], spaces[..], nspaces, k) && Coherent()
      requires cell == spaces[k] && 1 <= guess <= 9 && !occupied[cell, guess]
      modifies board, spaces, occupied, arity
      ensures Valid() && Coherent()
      ensures var r := Solve(true, old(board[..])[cell := guess], old(spaces[..]), nspaces, k + 1);
              && ok == r.ok && spaces[..] == r.spaces
              && (ok ==> board[..] == r.board)
              && (!ok ==> board[..] == old(board[..]) == r.board[cell := 0]
                          && spaces[k] == cell && Open(board[..], spaces[..], nspaces, k))
      ensures !ok ==> forall c: nat, v: nat | c < 81 && v < 10 :: occupied[c, v] == old(occupied[c, v])
      ensures !ok ==> forall c: nat | c < 81 :: arity[c] == old(arity[c])
      decreases nspaces - k, 0
    {
      ghost var b, sp := board[..], spaces[..];
      hide Available, IsTable, Arity, Solve, Open;
      HoldCell(b, sp, nspaces, k, guess);
      assert board[cell] == 0;
      board[cell] := guess;
      assert board[..] == b[cell := guess];
      var modified := Mark(neighbors, occupied, arity, cell, guess, b);
      ok := SolveCached(k + 1);
      if !ok {
        assert board[cell] == guess;
        board[cell] := 0;
        assert board[..] == b;
        Unmark(occupied, arity, cell, guess, modified);
      }
    }

    /** solve_sudoku_min_arity_cache: the same steps as SolveMinArity, and the cache stays right; a
        failed search leaves every entry of the cache as it was. */
    method SolveCached(k: nat) returns (ok: bool)
      requires Valid() && k <= nspaces && Open(board[..], spaces[..], nspaces, k) && Coherent()
      modifies board, spaces, occupied, arity
      ensures Result(ok, board[..], spaces[..]) == Solve(true, old(board[..]), old(spaces[..]), nspaces, k)
      ensures ok ==> Path(true, old(board[..]), spaces[..], board[..], nspaces, k)
      ensures Valid() && Coherent()
      ensures !ok ==> forall c: nat, v: nat | c < 81 && v < 10 :: occupied[c, v] == old(occupied[c, v])
      ensures !ok ==> forall c: nat | c < 81 :: arity[c] == old(arity[c])
      decreases nspaces - k, 1
    {
      hide Path, IsTable, Order, Available, Rearranged, Arity;
      SolvePath(true, board[..], spaces[..], nspaces, k);
      if k >= nspaces {
        return true;
      }
      ghost var b, sp := board[..], spaces[..];
      OrderRearranges(b, sp, nspaces, k);
      FindMinCached(k);
      var cell := spaces[k];
      for guess := 1 to 10
        invariant board[..] == b && Valid() && spaces[k] == cell && Open(b, spaces[..], nspaces, k) && Coherent()
        invariant forall c: nat, v: nat | c < 81 && v < 10 :: occupied[c, v] == old(occupied[c, v])
        invariant forall c: nat | c < 81 :: arity[c] == old(arity[c])
        invariant Solve(true, b, sp, nspaces, k) == Try(true, b, spaces[..], nspaces, k, guess)
      {
        FreeMeansAvailable(b, occupied, cell, guess);
        if !occupied[cell, guess] {
          ok := HoldAndTry(k, cell, guess);
          if ok {
            return true;
          }
        }
      }
      return false;
    }
  }

  ghost predicate IsInput(digits: string) {
    |digits| == 81 && forall i | 0 <= i < 81 :: '0' <= digits[i] <= '9'
  }

  /** The board that the digits spell. */
  ghost function BoardOf(digits: string): (b: Board)
    requires IsInput(digits)
    ensures IsBoard(b) && forall i | 0 <= i < 81 :: b[i] == digits[i] as int - '0' as int
  {
    seq(81, i requires 0 <= i < 81 => digits[i] as int - '0' as int)
  }

  /** What every solver that looks for a cell of least arity ends with. */
  ghost predicate Ends(s: Solver, ok: bool, b: Board)
    requires |b| == 81
    reads s, s.board, s.spaces
  {
    && AreSpaces(Start(b)) && s.board.Length == 81 && s.nspaces == Empties(b)
    && Result(ok, s.board[..], s.spaces[..]) == Solve(true, b, Start(b), Empties(b), 0)
  }

  method SolvePlain(table: array2<nat>, digits: string) returns (s: Solver, ok: bool)
    requires IsTable(table) && IsInput(digits)
    ensures fresh(s) && fresh(s.board) && fresh(s.spaces) && Ends(s, ok, BoardOf(digits))
  {
    hide Solve, Available, IsTable, Cells, EmptyCells, Open, StartsFrom, Start, Empties;
    s := new Solver(table);
    s.Input(digits);
    assert s.board[..] == BoardOf(digits);
    StartsNew(s.board[..], seq(81, _ => 0), s.spaces[..], s.nspaces);
    ok := s.SolveMinArity(0);
  }

  method SolveWithCache(table: array2<nat>, digits: string) returns (s: Solver, ok: bool)
    requires IsTable(table) && IsInput(digits)
    ensures fresh(s) && fresh(s.board) && fresh(s.spaces) && Ends(s, ok, BoardOf(digits))
  {
    hide Solve, Available, IsTable, Cached, Counted, Cells, EmptyCells, Open, StartsFrom, Start, Empties;
    s := new Solver(table);
    s.Input(digits);
    assert s.board[..] == BoardOf(digits);
    StartsNew(s.board[..], seq(81, _ => 0), s.spaces[..], s.nspaces);
    s.InitCache();
    ok := s.SolveCached(0);
  }

  /** The cached and the uncached solver, on the same puzzle: the same answer, the same board and the
      same order of cells.  The answer is right exactly when the givens do not clash or the empty cells
      cannot be filled at all. */
  method SolveBoth(digits: string) returns (plain: Solver, cached: Solver, ok: bool, ok': bool)
    requires IsInput(digits)
    ensures ok == ok' && plain.board[..] == cached.board[..]
    ensures plain.spaces[..] == cached.spaces[..] && plain.nspaces == cached.nspaces
    ensures Solvable(BoardOf(digits)) <==> ok && Consistent(BoardOf(digits))
    ensures (ok <==> Solvable(BoardOf(digits)))
            <==> Consistent(BoardOf(digits)) || NoCompletion(BoardOf(digits), EmptyCells(BoardOf(digits)))
    ensures ok ==> Extends(BoardOf(digits), plain.board[..])
                   && (Solution(plain.board[..]) <==> Consistent(BoardOf(digits)))
    ensures !ok ==> plain.board[..] == BoardOf(digits)
    ensures plain.nspaces <= 81 && |plain.board[..]| == 81 && AreSpaces(plain.spaces[..])
    ensures ok ==> Path(true, BoardOf(digits), plain.spaces[..], plain.board[..], plain.nspaces, 0)
  {
    hide Solve, Path, IsTable, Solution, Consistent, Extends, Solvable, NoCompletion, Start, Empties, EmptyCells;
    ghost var b := BoardOf(digits);
    var table := InitNeighbors();
    plain, ok := SolvePlain(table, digits);
    StartIsRight(b);
    cached, ok' := SolveWithCache(table, digits);
  }

  lemma StartIsRight(b: Board)
    requires IsBoard(b)
    ensures AreSpaces(Start(b))
    ensures var r := Solve(true, b, Start(b), Empties(b), 0);
            && (Solvable(b) <==> r.ok && Consistent(b))
            && ((r.ok <==> Solvable(b)) <==> Consistent(b) || NoCompletion(b, EmptyCells(b)))
            && (r.ok ==> Extends(b, r.board) && (Solution(r.board) <==> Consistent(b)))
            && (!r.ok ==> r.board == b)
            && (r.ok ==> Path(true, b, r.spaces, r.board, Empties(b), 0))
  {
    hide Solve, Path, Solution, Consistent, Extends, Solvable, Cells, EmptyCells, NoCompletion;
    var zeros: Spaces := seq(81, _ => 0);
    var sp, n := Start(b), Empties(b);
    assert sp == EmptyBelow(b, 81) + zeros[n..];
    StartsNew(b, zeros, sp, n);
    SolveIsRight(true, b, sp, n);
    AnswerIsRight(true, b, sp, n);
    SolvePath(true, b, sp, n, 0);
  }
}
