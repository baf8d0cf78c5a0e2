/** Exact cover problems: choose rows of a matrix that use every column of H exactly once. */
module ExactCover {

  /** The columns that each row uses. */
  type Matrix = map<nat, set<nat>>

  /** The rows S use every column of H exactly once and no other column. */
  ghost predicate IsCover(M: Matrix, H: set<nat>, S: set<nat>) {
    && (forall x | x in S :: x in M && M[x] <= H)
    && (forall x, y | x in S && y in S && x != y :: x in M && y in M && M[x] !! M[y])
    && (forall c | c in H :: exists x :: x in S && x in M && c in M[x])
  }

  ghost predicate Coverable(M: Matrix, H: set<nat>) {
    exists S: set<nat> :: IsCover(M, H, S)
  }

  lemma EmptyCover(M: Matrix)
    ensures IsCover(M, {}, {})
  {
  }

  /** Choosing row x first: a cover of what x leaves over, with x, is a cover of H. */
  lemma AddRow(M: Matrix, H: set<nat>, x: nat, S: set<nat>)
    requires x in M && M[x] != {} && M[x] <= H
    requires IsCover(M, H - M[x], S)
    ensures IsCover(M, H, S + {x}) && x !in S
  {
    var c :| c in M[x];
    assert forall y | y in S :: M[y] !! M[x];
    forall c | c in H
      ensures exists y :: y in S + {x} && y in M && c in M[y]
    {
      if c in M[x] {
        assert x in S + {x};
      } else {
        assert c in H - M[x];
        var y :| y in S && y in M && c in M[y];
        assert y in S + {x};
      }
    }
  }

  /** Taking a row out of a cover leaves a cover of the columns it did not use. */
  lemma RemoveRow(M: Matrix, H: set<nat>, x: nat, S: set<nat>)
    requires x in S && IsCover(M, H, S)
    ensures IsCover(M, H - M[x], S - {x})
  {
    var H', S' := H - M[x], S - {x};
    forall c | c in H'
      ensures exists y :: y in S' && y in M && c in M[y]
    {
      var y :| y in S && y in M && c in M[y];
      assert y in S';
    }
  }

  /** Every cover of H uses c by some row, and the rest of it covers what that row leaves. */
  lemma SplitCover(M: Matrix, H: set<nat>, c: nat) returns (x: nat)
    requires c in H && Coverable(M, H)
    ensures x in M && c in M[x] && M[x] <= H && Coverable(M, H - M[x])
  {
    var S: set<nat> :| IsCover(M, H, S);
    x :| x in S && x in M && c in M[x];
    RemoveRow(M, H, x, S);
  }
}
