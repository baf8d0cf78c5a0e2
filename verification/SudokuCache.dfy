/** The cache of the fast backtracking solver: which values a cell's row, column and box already
    hold, and how many are left. */
module SudokuCache {
  import opened Grid
  import opened Neighbors
  import opened SudokuSearch

  /** occupied says for every cell and value whether the cell or one of its peers holds it. */
  ghost predicate Cached(b: Board, occupied: array2<bool>)
    requires |b| == 81
    reads occupied
  {
    && occupied.Length0 == 81 && occupied.Length1 == 10
    && forall c: nat, v: nat | c < 81 && 1 <= v < 10 :: occupied[c, v] <==> b[c] == v || !Available(b, v, c)
  }

  /** arity is right for every empty cell. */
  ghost predicate Counted(b: Board, arity: array<int>)
    requires |b| == 81
    reads arity
  {
    arity.Length == 81 && forall c: nat | c < 81 && b[c] == 0 :: arity[c] == Arity(b, c)
  }

  /** Placing v in an empty cell makes it unavailable to the peers of that cell, and to no other. */
  lemma AvailableAfter(b: Board, cell: nat, g: int, c: nat, v: int)
    requires |b| == 81 && cell < 81 && b[cell] == 0 && v != 0
    ensures Available(b[cell := g], v, c) <==> Available(b, v, c) && !(Peers(c, cell) && v == g)
  {
    var b' := b[cell := g];
    if Available(b', v, c) {
      forall p: nat | Peers(c, p)
        ensures b[p] != v
      {
        assert b'[p] != v;
      }
      if Peers(c, cell) {
        assert b'[cell] != v;
      }
    }
  }

  lemma {:induction false} CountAfter(b: Board, cell: nat, g: int, c: nat, n: nat)
    requires |b| == 81 && cell < 81 && b[cell] == 0 && 1 <= g
    ensures CountFree(b[cell := g], c, n)
            == CountFree(b, c, n) - (if Peers(c, cell) && g <= n && Available(b, g, c) then 1 else 0)
  {
    if n != 0 {
      CountAfter(b, cell, g, c, n - 1);
      AvailableAfter(b, cell, g, c, n);
      hide Available, Peers;
    }
  }

  /** The effect of placing g in cell on one entry of the cache. */
  lemma EntryAfter(b: Board, cell: nat, g: nat, c: nat, v: nat)
    requires |b| == 81 && cell < 81 && b[cell] == 0 && c < 81 && 1 <= v < 10
    ensures var b' := b[cell := g];
            (b'[c] == v || !Available(b', v, c))
            <==> (b[c] == v || !Available(b, v, c)) || (v == g && (c == cell || Peers(cell, c)))
  {
    AvailableAfter(b, cell, g, c, v);
    if Peers(cell, c) {
      PeersSymmetric(cell, c);
    }
    if Peers(c, cell) {
      PeersSymmetric(c, cell);
    }
    hide Available;
  }

  lemma CountEntryAfter(b: Board, cell: nat, g: nat, c: nat)
    requires |b| == 81 && cell < 81 && b[cell] == 0 && 1 <= g <= 9 && c < 81
    ensures Arity(b[cell := g], c) == Arity(b, c) - (if Peers(cell, c) && Available(b, g, c) then 1 else 0)
  {
    CountAfter(b, cell, g, c, 9);
    if Peers(cell, c) {
      PeersSymmetric(cell, c);
    }
    if Peers(c, cell) {
      PeersSymmetric(c, cell);
    }
    hide Available;
  }

  /** Marks g as taken for cell and its peers.  modified lists the peers for which this is news; the
      array that holds them has room for twenty. */
  method Mark(neighbors: array2<nat>, occupied: array2<bool>, arity: array<int>, cell: nat, g: nat, ghost b: Board)
    returns (modified: seq<nat>)
    requires IsTable(neighbors) && |b| == 81 && Cached(b, occupied) && Counted(b, arity)
    requires cell < 81 && b[cell] == 0 && 1 <= g <= 9
    modifies occupied, arity
    ensures Cached(b[cell := g], occupied) && Counted(b[cell := g], arity)
    ensures forall c: nat, v: nat | c < 81 && v < 10 ::
              occupied[c, v] <==> old(occupied[c, v]) || (v == g && (c == cell || c in modified))
    ensures forall c: nat | c < 81 :: arity[c] == old(arity[c]) - (if c in modified then 1 else 0)
    ensures forall i | 0 <= i < |modified| :: modified[i] < 81 && modified[i] != cell && !old(occupied[modified[i], g])
    ensures forall i, j | 0 <= i < j < |modified| :: modified[i] != modified[j]
    ensures |modified| <= 20
  {
    hide Available, Peers, Arity, IsTable;
    modified := MarkPeers(neighbors, occupied, arity, cell, g);
    NoOwnPeer(cell);
    forall i | 0 <= i < |modified|
      ensures modified[i] < 81 && modified[i] != cell && !old(occupied[modified[i], g])
    {
      assert modified[i] in modified;
    }
    ghost var b' := b[cell := g];
    forall c: nat, v: nat | c < 81 && 1 <= v < 10
      ensures occupied[c, v] <==> b'[c] == v || !Available(b', v, c)
    {
      EntryAfter(b, cell, g, c, v);
    }
    forall c: nat | c < 81 && b'[c] == 0
      ensures arity[c] == Arity(b', c)
    {
      CountEntryAfter(b, cell, g, c);
    }
  }

  lemma NoOwnPeer(cell: nat)
    ensures !Peers(cell, cell)
  {
  }

  /** The loop over the neighbors. */
  method MarkPeers(neighbors: array2<nat>, occupied: array2<bool>, arity: array<int>, cell: nat, g: nat)
    returns (modified: seq<nat>)
    requires IsTable(neighbors) && occupied.Length0 == 81 && occupied.Length1 == 10 && arity.Length == 81
    requires cell < 81 && 1 <= g <= 9
    modifies occupied, arity
    ensures forall c: nat, v: nat | c < 81 && v < 10 ::
              occupied[c, v] <==> old(occupied[c, v]) || (v == g && (c == cell || c in modified))
    ensures forall c: nat | c < 81 :: arity[c] == old(arity[c]) - (if c in modified then 1 else 0)
    ensures forall c: nat :: c in modified <==> Peers(cell, c) && c < 81 && !old(occupied[c, g])
    ensures forall i, j | 0 <= i < j < |modified| :: modified[i] != modified[j]
    ensures |modified| <= 20
  {
    hide Peers;
    ghost var all := NeighborsOf(cell);
    occupied[cell, g] := true;
    modified := [];
    for n := 0 to 20
      invariant forall c: nat, v: nat | c < 81 && v < 10 ::
          occupied[c, v] <==> old(occupied[c, v]) || (v == g && (c == cell || c in modified))
      invariant forall c: nat | c < 81 :: arity[c] == old(arity[c]) - (if c in modified then 1 else 0)
      invariant forall c: nat :: c in modified <==> c in all[..n] && !old(occupied[c, g])
      invariant forall i, j | 0 <= i < j < |modified| :: modified[i] != modified[j]
      invariant |modified| <= n
    {
      var neighbor := neighbors[cell, n];
      assert all[..n + 1] == all[..n] + [all[n]];
      NotItself(cell, n);
      if !occupied[neighbor, g] {
        occupied[neighbor, g] := true;
        arity[neighbor] := arity[neighbor] - 1;
        modified := modified + [neighbor];
      }
    }
    assert all[..20] == all;
  }

  lemma NotItself(cell: nat, n: nat)
    requires cell < 81 && n < 20
    ensures NeighborsOf(cell)[n] != cell && NeighborsOf(cell)[n] !in NeighborsOf(cell)[..n]
  {
    assert Peers(cell, NeighborsOf(cell)[n]);
  }

  /** Takes back what Mark changed. */
  method Unmark(occupied: array2<bool>, arity: array<int>, cell: nat, g: nat, modified: seq<nat>)
    requires occupied.Length0 == 81 && occupied.Length1 == 10 && arity.Length == 81 && cell < 81 && 1 <= g <= 9
    requires forall i | 0 <= i < |modified| :: modified[i] < 81 && modified[i] != cell && occupied[modified[i], g]
    requires forall i, j | 0 <= i < j < |modified| :: modified[i] != modified[j]
    modifies occupied, arity
    ensures forall c: nat, v: nat | c < 81 && v < 10 ::
              occupied[c, v] <==> old(occupied[c, v]) && !(v == g && (c == cell || c in modified))
    ensures forall c: nat | c < 81 :: arity[c] == old(arity[c]) + (if c in modified then 1 else 0)
  {
    occupied[cell, g] := false;
    for i := 0 to |modified|
      invariant forall c: nat, v: nat | c < 81 && v < 10 ::
          occupied[c, v] <==> old(occupied[c, v]) && !(v == g && (c == cell || c in modified[..i]))
      invariant forall c: nat | c < 81 :: arity[c] == old(arity[c]) + (if c in modified[..i] then 1 else 0)
    {
      var neighbor := modified[i];
      assert modified[..i + 1] == modified[..i] + [neighbor];
      assert neighbor !in modified[..i];
      assert occupied[neighbor, g];  // the source's assert
      occupied[neighbor, g] := false;
      arity[neighbor] := arity[neighbor] + 1;
    }
    assert modified[..|modified|] == modified;
  }
}
