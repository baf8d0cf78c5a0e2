/** Backtracking over the empty cells, as a value: what the solvers that guess cell by cell
    return, and what that means. */
module SudokuSearch {
  import opened Grid

  ghost predicate Available(b: Board, v: int, cell: nat)
    requires |b| == 81
  {
    forall p: nat | Peers(cell, p) :: b[p] != v
  }

  /** How many of the values 1..n are available. */
  ghost function CountFree(b: Board, cell: nat, n: nat): (k: nat)
    requires |b| == 81
  {
    if n == 0 then 0 else CountFree(b, cell, n - 1) + (if Available(b, n, cell) then 1 else 0)
  }

  ghost function Arity(b: Board, cell: nat): (k: nat)
    requires |b| == 81
  {
    CountFree(b, cell, 9)
  }

  // ----- the order of the empty cells -----

  type Spaces = seq<nat>

  ghost predicate AreSpaces(sp: Spaces) { |sp| == 81 && forall i | 0 <= i < 81 :: sp[i] < 81 }

  /** The scan of find_min_arity from index i on, best being the best index so far. */
  ghost function MinSpace(b: Board, sp: Spaces, n: nat, i: nat, best: nat): (j: nat)
    requires |b| == 81 && AreSpaces(sp) && n <= 81 && best < n
    ensures j < n && (j == best || i <= j)
    decreases n - i
  {
    if i >= n || Arity(b, sp[best]) <= 1 then best
    else if Arity(b, sp[i]) < Arity(b, sp[best]) then MinSpace(b, sp, n, i + 1, i)
    else MinSpace(b, sp, n, i + 1, best)
  }

  ghost function Swapped(sp: Spaces, i: nat, j: nat): (sp': Spaces)
    requires i < |sp| && j < |sp|
  {
    sp[j := sp[i]][i := sp[j]]
  }

  /** find_min_arity: the chosen cell goes to index k. */
  ghost function Order(b: Board, sp: Spaces, n: nat, k: nat): (sp': Spaces)
    requires |b| == 81 && AreSpaces(sp) && k < n <= 81
    ensures AreSpaces(sp')
  {
    Swapped(sp, k, MinSpace(b, sp, n, k + 1, k))
  }

  // ----- the search -----

  datatype Result = Result(ok: bool, board: Board, spaces: Spaces)

  /** pick says whether the solver looks for a cell of least arity or takes the next one. */
  ghost function Solve(pick: bool, b: Board, sp: Spaces, n: nat, k: nat): (r: Result)
    requires |b| == 81 && AreSpaces(sp) && k <= n <= 81
    ensures |r.board| == 81 && AreSpaces(r.spaces)
    decreases n - k, 10
  {
    if k >= n then Result(true, b, sp)
    else Try(pick, b, if pick then Order(b, sp, n, k) else sp, n, k, 1)
  }

  ghost function Try(pick: bool, b: Board, sp: Spaces, n: nat, k: nat, g: nat): (r: Result)
    requires |b| == 81 && AreSpaces(sp) && k < n <= 81 && g <= 10
    ensures |r.board| == 81 && AreSpaces(r.spaces)
    decreases n - k, 10 - g
  {
    if g > 9 then Result(false, b, sp)
    else
      var cell := sp[k];
      if Available(b, g, cell) then
        var r := Solve(pick, b[cell := g], sp, n, k + 1);
        if r.ok then r else Try(pick, r.board[cell := 0], r.spaces, n, k, g + 1)
      else Try(pick, b, sp, n, k, g + 1)
  }

  lemma SolveUnfold(pick: bool, b: Board, sp: Spaces, n: nat, k: nat)
    requires |b| == 81 && AreSpaces(sp) && k <= n <= 81
    ensures k >= n ==> Solve(pick, b, sp, n, k) == Result(true, b, sp)
    ensures k < n ==> Solve(pick, b, sp, n, k) == Try(pick, b, if pick then Order(b, sp, n, k) else sp, n, k, 1)
  {
    hide Order, Try, Available;
  }

  lemma TryUnfold(pick: bool, b: Board, sp: Spaces, n: nat, k: nat, g: nat)
    requires |b| == 81 && AreSpaces(sp) && k < n <= 81 && g <= 10
    ensures g > 9 ==> Try(pick, b, sp, n, k, g) == Result(false, b, sp)
    ensures g <= 9 && !Available(b, g, sp[k]) ==> Try(pick, b, sp, n, k, g) == Try(pick, b, sp, n, k, g + 1)
    ensures g <= 9 && Available(b, g, sp[k]) ==>
              var r := Solve(pick, b[sp[k] := g], sp, n, k + 1);
              Try(pick, b, sp, n, k, g) == if r.ok then r else Try(pick, r.board[sp[k] := 0], r.spaces, n, k, g + 1)
  {
    hide Solve, Available;
  }

  // ----- what the cells are -----

  ghost function Cells(sp: Spaces, k: nat, n: nat): (s: set<nat>)
    requires n <= |sp|
  {
    set i | k <= i < n :: sp[i]
  }

  /** The cells from index k on are different and empty. */
  ghost predicate Open(b: Board, sp: Spaces, n: nat, k: nat) {
    && |b| == 81 && AreSpaces(sp) && k <= n <= 81
    && (forall i, j | 0 <= i < j < n :: sp[i] != sp[j])
    && (forall i | k <= i < n :: b[sp[i]] == 0)
  }

  /** The search has only rearranged the cells from index k on. */
  ghost predicate Rearranged(sp: Spaces, sp': Spaces, n: nat, k: nat)
    requires AreSpaces(sp) && AreSpaces(sp') && k <= n <= 81
  {
    && (forall i | 0 <= i < k :: sp'[i] == sp[i])
    && (forall i, j | 0 <= i < j < n :: sp'[i] != sp'[j])
    && Cells(sp', k, n) == Cells(sp, k, n)
  }

  lemma OrderRearranges(b: Board, sp: Spaces, n: nat, k: nat)
    requires Open(b, sp, n, k) && k < n
    ensures Rearranged(sp, Order(b, sp, n, k), n, k) && Open(b, Order(b, sp, n, k), n, k)
  {
    var j := MinSpace(b, sp, n, k + 1, k);
    hide MinSpace;
    SwapRearranges(b, sp, n, k, j);
  }

  lemma SwapRearranges(b: Board, sp: Spaces, n: nat, k: nat, j: nat)
    requires Open(b, sp, n, k) && k <= j < n
    ensures Rearranged(sp, Swapped(sp, k, j), n, k) && Open(b, Swapped(sp, k, j), n, k)
  {
    var sp' := Swapped(sp, k, j);
    forall c | c in Cells(sp, k, n)
      ensures c in Cells(sp', k, n)
    {
      var i :| k <= i < n && sp[i] == c;
      assert sp'[if i == k then j else if i == j then k else i] == c;
    }
    forall c | c in Cells(sp', k, n)
      ensures c in Cells(sp, k, n)
    {
      var i :| k <= i < n && sp'[i] == c;
      assert sp[if i == k then j else if i == j then k else i] == c;
    }
  }

  lemma CellsSplit(sp: Spaces, n: nat, k: nat)
    requires AreSpaces(sp) && k < n <= 81 && forall i, j | 0 <= i < j < n :: sp[i] != sp[j]
    ensures Cells(sp, k, n) == Cells(sp, k + 1, n) + {sp[k]} && sp[k] !in Cells(sp, k + 1, n)
  {
    forall c | c in Cells(sp, k, n)
      ensures c in Cells(sp, k + 1, n) + {sp[k]}
    {
      var i :| k <= i < n && sp[i] == c;
    }
  }

  lemma RearrangedLater(sp: Spaces, sp': Spaces, n: nat, k: nat)
    requires AreSpaces(sp) && AreSpaces(sp') && k < n <= 81 && Rearranged(sp, sp', n, k + 1)
    requires forall i, j | 0 <= i < j < n :: sp[i] != sp[j]
    ensures Rearranged(sp, sp', n, k) && sp'[k] == sp[k]
  {
    CellsSplit(sp, n, k);
    CellsSplit(sp', n, k);
  }

  // ----- failure leaves the board as it was -----

  lemma {:induction false} SolveRestores(pick: bool, b: Board, sp: Spaces, n: nat, k: nat)
    requires Open(b, sp, n, k)
    ensures var r := Solve(pick, b, sp, n, k); Rearranged(sp, r.spaces, n, k) && (!r.ok ==> r.board == b)
    decreases n - k, 10
  {
    if k < n {
      if pick {
        OrderRearranges(b, sp, n, k);
        var sp' := Order(b, sp, n, k);
        hide Order;
        TryRestores(pick, b, sp', n, k, 1);
      } else {
        TryRestores(pick, b, sp, n, k, 1);
      }
    }
  }

  lemma {:induction false} TryRestores(pick: bool, b: Board, sp: Spaces, n: nat, k: nat, g: nat)
    requires Open(b, sp, n, k) && k < n && g <= 10
    ensures var r := Try(pick, b, sp, n, k, g); Rearranged(sp, r.spaces, n, k) && (!r.ok ==> r.board == b)
    decreases n - k, 10 - g
  {
    if g <= 9 {
      var cell := sp[k];
      if Available(b, g, cell) {
        hide Available;
        assert Open(b[cell := g], sp, n, k + 1);
        SolveRestores(pick, b[cell := g], sp, n, k + 1);
        var r := Solve(pick, b[cell := g], sp, n, k + 1);
        RearrangedLater(sp, r.spaces, n, k);
        if !r.ok {
          assert r.board[cell := 0] == b;
          OpenAgain(b, sp, r.spaces, n, k);
          TryRestores(pick, b, r.spaces, n, k, g + 1);
        }
      } else {
        TryRestores(pick, b, sp, n, k, g + 1);
      }
    }
  }

  lemma OpenAgain(b: Board, sp: Spaces, sp': Spaces, n: nat, k: nat)
    requires Open(b, sp, n, k) && AreSpaces(sp') && Rearranged(sp, sp', n, k)
    ensures Open(b, sp', n, k)
  {
    forall i | k <= i < n
      ensures b[sp'[i]] == 0
    {
      assert sp'[i] in Cells(sp', k, n);
      var j :| k <= j < n && sp[j] == sp'[i];
    }
  }

  // ----- the search decides whether the empty cells can be filled -----

  /** g fills the cells C of b so that none of them equals one of its peers. */
  ghost predicate Completion(b: Board, C: set<nat>, g: Board) {
    && |b| == 81 && |g| == 81
    && (forall i | 0 <= i < 81 && i !in C :: g[i] == b[i])
    && (forall c | c in C :: c < 81 && 1 <= g[c] <= 9 && Available(g, g[c], c))
  }

  ghost predicate NoCompletion(b: Board, C: set<nat>) {
    forall g: Board :: !Completion(b, C, g)
  }

  lemma PeersSymmetric(i: nat, j: nat)
    requires Peers(i, j)
    ensures Peers(j, i)
  {
    var k: Kind :| UnitOf(k, i) == UnitOf(k, j);
    assert UnitOf(k, j) == UnitOf(k, i);
  }

  /** A completion gives the cell an available value and completes the rest. */
  lemma PushCell(b: Board, C: set<nat>, cell: nat, g: Board)
    requires Completion(b, C, g) && cell in C && forall c | c in C && c < 81 :: b[c] == 0
    ensures Available(b, g[cell], cell) && Completion(b[cell := g[cell]], C - {cell}, g)
  {
    forall p: nat | Peers(cell, p)
      ensures b[p] != g[cell]
    {
      assert Available(g, g[cell], cell);
    }
  }

  /** An available value and a completion of the rest make a completion. */
  lemma PopCell(b: Board, C: set<nat>, cell: nat, v: int, g: Board)
    requires |b| == 81 && cell in C && cell < 81 && 1 <= v <= 9
    requires Available(b, v, cell) && Completion(b[cell := v], C - {cell}, g)
    ensures Completion(b, C, g)
  {
    assert g[cell] == v;
    forall p: nat | Peers(cell, p)
      ensures g[p] != v
    {
      PeersSymmetric(cell, p);
      if p in C {
        assert p in C - {cell};
        assert g[cell] != g[p];
      } else {
        assert g[p] == b[p];
      }
    }
    forall c | c in C
      ensures c < 81 && 1 <= g[c] <= 9 && Available(g, g[c], c)
    {
      if c != cell {
        assert c in C - {cell};
      }
    }
  }

  /** The solver returns true exactly when the empty cells can be filled, and then its board is
      such a filling. */
  lemma {:induction false} SolveDecides(pick: bool, b: Board, sp: Spaces, n: nat, k: nat)
    requires Open(b, sp, n, k)
    ensures var r, C := Solve(pick, b, sp, n, k), Cells(sp, k, n);
            && (r.ok ==> Completion(b, C, r.board))
            && (!r.ok ==> NoCompletion(b, C))
    decreases n - k, 10
  {
    if k < n {
      hide Order, Completion, NoCompletion, AtLeast;
      if pick {
        OrderRearranges(b, sp, n, k);
        var sp' := Order(b, sp, n, k);
        FirstValue(b, sp', n, k);
        TryDecides(pick, b, sp', n, k, 1);
      } else {
        FirstValue(b, sp, n, k);
        TryDecides(pick, b, sp, n, k, 1);
      }
    } else {
      assert Cells(sp, k, n) == {};
    }
  }

  /** No completion gives the cell a value below g. */
  ghost predicate AtLeast(b: Board, C: set<nat>, cell: nat, g: int)
    requires cell < 81
  {
    forall f: Board | Completion(b, C, f) :: f[cell] >= g
  }

  lemma {:induction false} TryDecides(pick: bool, b: Board, sp: Spaces, n: nat, k: nat, g: nat)
    requires Open(b, sp, n, k) && k < n && 1 <= g <= 10 && AtLeast(b, Cells(sp, k, n), sp[k], g)
    ensures var r, C := Try(pick, b, sp, n, k, g), Cells(sp, k, n);
            && (r.ok ==> Completion(b, C, r.board))
            && (!r.ok ==> NoCompletion(b, C))
    decreases n - k, 10 - g
  {
    hide Completion, NoCompletion, AtLeast, Available, Cells;
    var cell, C := sp[k], Cells(sp, k, n);
    CellsSplit(sp, n, k);
    if g <= 9 {
      if Available(b, g, cell) {
        var b' := b[cell := g];
        assert Open(b', sp, n, k + 1);
        SolveRestores(pick, b', sp, n, k + 1);
        SolveDecides(pick, b', sp, n, k + 1);
        var r := Solve(pick, b', sp, n, k + 1);
        assert C - {cell} == Cells(sp, k + 1, n);
        if r.ok {
          PopCell(b, C, cell, g, r.board);
        } else {
          assert r.board[cell := 0] == b;
          RearrangedLater(sp, r.spaces, n, k);
          OpenAgain(b, sp, r.spaces, n, k);
          NotThisValue(b, sp, n, k, g);
          TryDecides(pick, b, r.spaces, n, k, g + 1);
        }
      } else {
        NotThisValue(b, sp, n, k, g);
        TryDecides(pick, b, sp, n, k, g + 1);
      }
    } else {
      NothingLeft(b, sp, n, k);
    }
  }

  lemma NothingLeft(b: Board, sp: Spaces, n: nat, k: nat)
    requires Open(b, sp, n, k) && k < n && AtLeast(b, Cells(sp, k, n), sp[k], 10)
    ensures NoCompletion(b, Cells(sp, k, n))
  {
    assert sp[k] in Cells(sp, k, n);
  }

  lemma FirstValue(b: Board, sp: Spaces, n: nat, k: nat)
    requires Open(b, sp, n, k) && k < n
    ensures AtLeast(b, Cells(sp, k, n), sp[k], 1)
  {
    assert sp[k] in Cells(sp, k, n);
  }

  /** A value that is not available, or whose search failed, stands in no completion. */
  lemma NotThisValue(b: Board, sp: Spaces, n: nat, k: nat, g: nat)
    requires Open(b, sp, n, k) && k < n && AtLeast(b, Cells(sp, k, n), sp[k], g)
    requires Available(b, g, sp[k]) ==> NoCompletion(b[sp[k] := g], Cells(sp, k + 1, n))
    ensures AtLeast(b, Cells(sp, k, n), sp[k], g + 1)
  {
    var C := Cells(sp, k, n);
    CellsSplit(sp, n, k);
    assert C - {sp[k]} == Cells(sp, k + 1, n);
    forall f: Board | Completion(b, C, f)
      ensures f[sp[k]] >= g + 1
    {
      assert forall c | c in C && c < 81 :: b[c] == 0;
      PushCell(b, C, sp[k], f);
    }
  }

  // ----- completions and solutions -----

  ghost function EmptyCells(b: Board): (C: set<nat>)
    requires |b| == 81
  {
    set i: nat | i < 81 && b[i] == 0
  }

  /** The givens do not clash. */
  ghost predicate Consistent(b: Board) {
    |b| == 81 && forall i: nat, j: nat | Peers(i, j) && b[i] != 0 :: b[i] != b[j]
  }

  /** The solvers never compare the givens with each other: what they find is a solution exactly
      when the givens do not clash. */
  lemma CompletionIsSolution(b: Board, g: Board)
    requires IsBoard(b) && Completion(b, EmptyCells(b), g)
    ensures Extends(b, g) && (Solution(g) <==> Consistent(b))
  {
    if Consistent(b) {
      forall i: nat, j: nat | Peers(i, j)
        ensures g[i] != g[j]
      {
        PeersSymmetric(i, j);
        if b[i] == 0 {
          assert Available(g, g[i], i);
        } else if b[j] == 0 {
          assert Available(g, g[j], j);
        }
      }
    }
    if Solution(g) {
      forall i: nat, j: nat | Peers(i, j) && b[i] != 0
        ensures b[i] != b[j]
      {
        assert g[i] == b[i] && g[i] != g[j];
      }
    }
  }

  lemma SolutionIsCompletion(b: Board, g: Board)
    requires IsBoard(b) && Solution(g) && Extends(b, g)
    ensures Completion(b, EmptyCells(b), g) && Consistent(b)
  {
    forall c | c in EmptyCells(b)
      ensures Available(g, g[c], c)
    {
      forall p: nat | Peers(c, p)
        ensures g[p] != g[c]
      {
      }
    }
    forall i: nat, j: nat | Peers(i, j) && b[i] != 0
      ensures b[i] != b[j]
    {
      assert g[i] == b[i] && g[i] != g[j];
    }
  }

  /** Started from all the empty cells: a board has a solution exactly when the search succeeds and the
      givens do not clash.  So the answer false is always right, and the answer true exactly when they
      do not clash. */
  lemma SolveIsRight(pick: bool, b: Board, sp: Spaces, n: nat)
    requires IsBoard(b) && Open(b, sp, n, 0) && Cells(sp, 0, n) == EmptyCells(b)
    ensures var r := Solve(pick, b, sp, n, 0);
            && (Solvable(b) <==> r.ok && Consistent(b))
            && (r.ok ==> Extends(b, r.board) && (Solution(r.board) <==> Consistent(b)))
            && (!r.ok ==> r.board == b)
  {
    var r := Solve(pick, b, sp, n, 0);
    SolveDecides(pick, b, sp, n, 0);
    SolveRestores(pick, b, sp, n, 0);
    hide Solve, Solution, Consistent, Completion, EmptyCells, Cells;
    if r.ok {
      CompletionIsSolution(b, r.board);
    }
    if Solvable(b) {
      var g: Board :| Solution(g) && Extends(b, g);
      SolutionIsCompletion(b, g);
    }
  }

  /** For which boards the answer is right: those whose givens do not clash, and those whose empty
      cells cannot be filled anyway. */
  lemma AnswerIsRight(pick: bool, b: Board, sp: Spaces, n: nat)
    requires IsBoard(b) && Open(b, sp, n, 0) && Cells(sp, 0, n) == EmptyCells(b)
    ensures (Solve(pick, b, sp, n, 0).ok <==> Solvable(b)) <==> Consistent(b) || NoCompletion(b, EmptyCells(b))
  {
    hide Solve, Solvable, Consistent, Completion, EmptyCells, Cells;
    SolveIsRight(pick, b, sp, n);
    SolveDecides(pick, b, sp, n, 0);
  }

  /** The scan finds the first index of least arity, or the first of arity at most one. */
  lemma {:induction false} MinSpaceIsLeast(b: Board, sp: Spaces, n: nat, k: nat, i: nat, best: nat)
    requires |b| == 81 && AreSpaces(sp) && n <= 81 && k <= best < i <= n
    requires forall j | k <= j < best :: Arity(b, sp[j]) > Arity(b, sp[best])
    requires forall j | best <= j < i :: Arity(b, sp[j]) >= Arity(b, sp[best])
    ensures var m := MinSpace(b, sp, n, i, best);
            && k <= m < n
            && (forall j | k <= j < m :: Arity(b, sp[j]) > Arity(b, sp[m]))
            && (Arity(b, sp[m]) <= 1 || forall j | k <= j < n :: Arity(b, sp[j]) >= Arity(b, sp[m]))
    decreases n - i
  {
    hide Arity;
    if i < n && Arity(b, sp[best]) > 1 {
      MinSpaceIsLeast(b, sp, n, k, i + 1, if Arity(b, sp[i]) < Arity(b, sp[best]) then i else best);
    }
  }

  /** m is the first index from k on whose cell has least arity, or the first of arity at most one. */
  ghost predicate LeastAt(b: Board, sp: Spaces, n: nat, k: nat, m: nat)
    requires |b| == 81 && AreSpaces(sp) && k <= m < n <= 81
  {
    && (forall j | k <= j < m :: Arity(b, sp[j]) > Arity(b, sp[m]))
    && (Arity(b, sp[m]) <= 1 || forall j | k <= j < n :: Arity(b, sp[j]) >= Arity(b, sp[m]))
  }

  /** That cell and the one at index k have changed places. */
  ghost predicate PutsLeastFirst(b: Board, sp: Spaces, sp': Spaces, n: nat, k: nat)
    requires |b| == 81 && AreSpaces(sp) && AreSpaces(sp') && k < n <= 81
  {
    exists m: nat :: k <= m < n && LeastAt(b, sp, n, k, m)
                     && sp'[k] == sp[m] && sp'[m] == sp[k]
                     && forall i | 0 <= i < 81 && i != k && i != m :: sp'[i] == sp[i]
  }

  /** find_min_arity brings forward the first cell of least arity. */
  lemma OrderPutsLeastFirst(b: Board, sp: Spaces, n: nat, k: nat)
    requires |b| == 81 && AreSpaces(sp) && k < n <= 81
    ensures PutsLeastFirst(b, sp, Order(b, sp, n, k), n, k)
  {
    hide Arity, MinSpace;
    MinSpaceIsLeast(b, sp, n, k, k + 1, k);
    assert LeastAt(b, sp, n, k, MinSpace(b, sp, n, k + 1, k));
  }

  // ----- the path to the answer -----

  /** No other cell of C has a smaller arity, unless this one is at most one. */
  ghost predicate LeastIn(b: Board, C: set<nat>, cell: nat)
    requires |b| == 81
  {
    Arity(b, cell) <= 1 || forall c | c in C :: Arity(b, cell) <= Arity(b, c)
  }

  /** From index k on, the cells in the order sp and their values in g are those that the search chose:
      a cell of least arity if it looks for one, and the least value with which the rest can be filled. */
  ghost predicate Path(pick: bool, b: Board, sp: Spaces, g: Board, n: nat, k: nat)
    requires |b| == 81 && |g| == 81 && AreSpaces(sp) && n <= 81
    decreases n - k
  {
    k >= n
    || (&& (pick ==> LeastIn(b, Cells(sp, k, n), sp[k]))
        && AtLeast(b, Cells(sp, k, n), sp[k], g[sp[k]])
        && Path(pick, b[sp[k] := g[sp[k]]], sp, g, n, k + 1))
  }

  lemma OrderLeast(b: Board, sp: Spaces, n: nat, k: nat)
    requires Open(b, sp, n, k) && k < n
    ensures LeastIn(b, Cells(Order(b, sp, n, k), k, n), Order(b, sp, n, k)[k])
  {
    hide Arity, Order;
    OrderRearranges(b, sp, n, k);
    OrderPutsLeastFirst(b, sp, n, k);
    var sp' := Order(b, sp, n, k);
    var m: nat :| k <= m < n && LeastAt(b, sp, n, k, m) && sp'[k] == sp[m];
    forall c | c in Cells(sp', k, n) && Arity(b, sp[m]) > 1
      ensures Arity(b, sp[m]) <= Arity(b, c)
    {
      assert c in Cells(sp, k, n);
      var j :| k <= j < n && sp[j] == c;
    }
  }

  /** Every cell on the way to the answer, and every value in it, was chosen so. */
  lemma {:induction false} SolvePath(pick: bool, b: Board, sp: Spaces, n: nat, k: nat)
    requires Open(b, sp, n, k)
    ensures var r := Solve(pick, b, sp, n, k);
            r.ok ==> Path(pick, b, r.spaces, r.board, n, k) && (!pick ==> r.spaces == sp)
    decreases n - k, 10
  {
    if k < n {
      hide Order, Completion, NoCompletion, AtLeast, LeastIn, Cells;
      if pick {
        OrderRearranges(b, sp, n, k);
        OrderLeast(b, sp, n, k);
        var sp' := Order(b, sp, n, k);
        FirstValue(b, sp', n, k);
        TryPath(pick, b, sp', n, k, 1);
      } else {
        FirstValue(b, sp, n, k);
        TryPath(pick, b, sp, n, k, 1);
      }
    }
  }

  lemma {:induction false} TryPath(pick: bool, b: Board, sp: Spaces, n: nat, k: nat, g: nat)
    requires Open(b, sp, n, k) && k < n && 1 <= g <= 10 && AtLeast(b, Cells(sp, k, n), sp[k], g)
    requires pick ==> LeastIn(b, Cells(sp, k, n), sp[k])
    ensures var r := Try(pick, b, sp, n, k, g);
            r.ok ==> Path(pick, b, r.spaces, r.board, n, k) && (!pick ==> r.spaces == sp)
    decreases n - k, 10 - g
  {
    hide Completion, NoCompletion, AtLeast, Available, Cells, LeastIn, Path, Solve, Try;
    TryUnfold(pick, b, sp, n, k, g);
    if g <= 9 {
      var cell := sp[k];
      if Available(b, g, cell) {
        var b' := b[cell := g];
        assert Open(b', sp, n, k + 1);
        SolveRestores(pick, b', sp, n, k + 1);
        SolveDecides(pick, b', sp, n, k + 1);
        SolvePath(pick, b', sp, n, k + 1);
        var r := Solve(pick, b', sp, n, k + 1);
        RearrangedLater(sp, r.spaces, n, k);
        if r.ok {
          KeepsValue(b', sp, n, k, r.board);
          PathStep(pick, b, r.spaces, r.board, n, k);
        } else {
          assert r.board[cell := 0] == b;
          OpenAgain(b, sp, r.spaces, n, k);
          NotThisValue(b, sp, n, k, g);
          SpacesKept(pick, b', sp, n, k + 1);
          TryPath(pick, b, r.spaces, n, k, g + 1);
        }
      } else {
        NotThisValue(b, sp, n, k, g);
        TryPath(pick, b, sp, n, k, g + 1);
      }
    }
  }

  lemma PathStep(pick: bool, b: Board, sp: Spaces, g: Board, n: nat, k: nat)
    requires |b| == 81 && |g| == 81 && AreSpaces(sp) && k < n <= 81
    requires pick ==> LeastIn(b, Cells(sp, k, n), sp[k])
    requires AtLeast(b, Cells(sp, k, n), sp[k], g[sp[k]]) && Path(pick, b[sp[k] := g[sp[k]]], sp, g, n, k + 1)
    ensures Path(pick, b, sp, g, n, k)
  {
  }

  lemma KeepsValue(b: Board, sp: Spaces, n: nat, k: nat, g: Board)
    requires AreSpaces(sp) && k < n <= 81 && forall i, j | 0 <= i < j < n :: sp[i] != sp[j]
    requires Completion(b, Cells(sp, k + 1, n), g)
    ensures g[sp[k]] == b[sp[k]]
  {
    CellsSplit(sp, n, k);
  }

  /** The solver that does not look for a cell leaves the order alone. */
  lemma {:induction false} SpacesKept(pick: bool, b: Board, sp: Spaces, n: nat, k: nat)
    requires |b| == 81 && AreSpaces(sp) && k <= n <= 81
    ensures !pick ==> Solve(pick, b, sp, n, k).spaces == sp
    decreases n - k, 10
  {
    if !pick && k < n {
      TriesKept(b, sp, n, k, 1);
    }
  }

  lemma {:induction false} TriesKept(b: Board, sp: Spaces, n: nat, k: nat, g: nat)
    requires |b| == 81 && AreSpaces(sp) && k < n <= 81 && g <= 10
    ensures Try(false, b, sp, n, k, g).spaces == sp
    decreases n - k, 10 - g
  {
    hide Available;
    if g <= 9 {
      if Available(b, g, sp[k]) {
        SpacesKept(false, b[sp[k] := g], sp, n, k + 1);
        var r := Solve(false, b[sp[k] := g], sp, n, k + 1);
        if !r.ok {
          TriesKept(r.board[sp[k] := 0], sp, n, k, g + 1);
        }
      } else {
        TriesKept(b, sp, n, k, g + 1);
      }
    }
  }

  /** Of all fillings the search finds the first, comparing cell by cell in the order that it took them. */
  lemma {:induction false} FirstFilling(pick: bool, b: Board, sp: Spaces, g: Board, n: nat, k: nat, f: Board)
    requires Open(b, sp, n, k) && |g| == 81 && Path(pick, b, sp, g, n, k)
    requires Completion(b, Cells(sp, k, n), g) && Completion(b, Cells(sp, k, n), f)
    ensures f == g || exists i :: k <= i < n && g[sp[i]] < f[sp[i]] && forall j | k <= j < i :: f[sp[j]] == g[sp[j]]
    decreases n - k
  {
    hide Completion, AtLeast, LeastIn, Cells, Available;
    if k >= n {
      NothingToFill(b, sp, n, k, f);
      NothingToFill(b, sp, n, k, g);
    } else {
      var C, cell := Cells(sp, k, n), sp[k];
      CellsSplit(sp, n, k);
      NotBelow(b, C, cell, g[cell], f);
      if f[cell] == g[cell] {
        assert C - {cell} == Cells(sp, k + 1, n);
        AllEmpty(b, sp, n, k);
        PushCell(b, C, cell, f);
        PushCell(b, C, cell, g);
        FirstFilling(pick, b[cell := g[cell]], sp, g, n, k + 1, f);
        if f != g {
          var i :| k + 1 <= i < n && g[sp[i]] < f[sp[i]] && forall j | k + 1 <= j < i :: f[sp[j]] == g[sp[j]];
          assert forall j | k <= j < i :: f[sp[j]] == g[sp[j]];
        }
      }
    }
  }

  lemma NothingToFill(b: Board, sp: Spaces, n: nat, k: nat, g: Board)
    requires n <= |sp| && k >= n && Completion(b, Cells(sp, k, n), g)
    ensures g == b
  {
    assert Cells(sp, k, n) == {};
  }

  lemma NotBelow(b: Board, C: set<nat>, cell: nat, v: int, f: Board)
    requires cell < 81 && AtLeast(b, C, cell, v) && Completion(b, C, f)
    ensures |f| == 81 && f[cell] >= v
  {
  }

  lemma AllEmpty(b: Board, sp: Spaces, n: nat, k: nat)
    requires Open(b, sp, n, k)
    ensures forall c | c in Cells(sp, k, n) && c < 81 :: b[c] == 0
  {
  }

  /** A clash that no guess touches: on a board full of ones there is nothing to guess, so the
      answer is true although the board is no solution. */
  lemma ClashGoesUnnoticed(pick: bool, sp: Spaces)
    requires AreSpaces(sp)
    ensures var b := seq(81, _ => 1);
            IsBoard(b) && EmptyCells(b) == {} && Solve(pick, b, sp, 0, 0).ok && !Solution(b) && !Consistent(b)
  {
    var b: Board := seq(81, _ => 1);
    assert UnitOf(Row, 0) == UnitOf(Row, 1);
    assert Peers(0, 1);
  }
}
