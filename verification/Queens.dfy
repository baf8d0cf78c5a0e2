/** Placements of queens, one per row, and how many of them are solutions. */
module Queens {
  import opened Sets

  /** q[r] is the column of the queen in row r. */
  type Placement = seq<nat>

  predicate Attack(r: nat, c: nat, r': nat, c': nat) {
    c == c' || c - c' == r' - r || c' - c == r' - r
  }

  ghost predicate Safe(q: Placement) {
    forall a, b | 0 <= a < b < |q| :: !Attack(a, q[a], b, q[b])
  }

  /** A queen in column i of the next row is attacked. */
  ghost predicate Attacked(q: Placement, i: nat) {
    exists r :: 0 <= r < |q| && Attack(r, q[r], |q|, i)
  }

  ghost predicate OnBoard(n: nat, q: Placement) {
    |q| <= n && forall r | 0 <= r < |q| :: q[r] < n
  }

  lemma SafeStep(q: Placement, i: nat)
    ensures Safe(q + [i]) <==> Safe(q) && !Attacked(q, i)
  {
    var t := q + [i];
    if Safe(t) {
      forall a, b | 0 <= a < b < |q|
        ensures !Attack(a, q[a], b, q[b])
      {
        assert !Attack(a, t[a], b, t[b]);
      }
      forall r | 0 <= r < |q|
        ensures !Attack(r, q[r], |q|, i)
      {
        assert !Attack(r, t[r], |q|, t[|q|]);
      }
    }
    if Safe(q) && !Attacked(q, i) {
      forall a, b | 0 <= a < b < |t|
        ensures !Attack(a, t[a], b, t[b])
      {
        if b < |q| {
          assert !Attack(a, q[a], b, q[b]);
        }
      }
    }
  }

  // ----- all placements -----

  function Placements(n: nat, k: nat): (s: set<Placement>) {
    if k == 0 then {[]} else set q, i | q in Placements(n, k - 1) && i in Columns(n) :: q + [i]
  }

  function Columns(n: nat): (s: set<nat>)
    ensures forall i: nat :: i in s <==> i < n
    ensures |s| == n
  {
    if n == 0 then {} else Columns(n - 1) + {n - 1}
  }

  lemma {:induction false} PlacementsAreAll(n: nat, k: nat, q: Placement)
    ensures q in Placements(n, k) <==> |q| == k && forall r | 0 <= r < k :: q[r] < n
  {
    if k != 0 {
      if |q| == k {
        var p, i := q[..k - 1], q[k - 1];
        assert q == p + [i];
        PlacementsAreAll(n, k - 1, p);
        if forall r | 0 <= r < k :: q[r] < n {
          assert i in Columns(n) && p in Placements(n, k - 1);
        }
      }
      if q in Placements(n, k) {
        var p, i :| p in Placements(n, k - 1) && i in Columns(n) && q == p + [i];
        PlacementsAreAll(n, k - 1, p);
      }
    }
  }

  /** The solutions that begin with q. */
  ghost function Completions(n: nat, q: Placement): (s: set<Placement>) {
    set t | t in Placements(n, n) && Safe(t) && q <= t
  }

  ghost function Solutions(n: nat): (s: set<Placement>) {
    Completions(n, [])
  }

  lemma InCompletions(n: nat, q: Placement, t: Placement)
    ensures t in Completions(n, q) <==> |t| == n && OnBoard(n, t) && Safe(t) && q <= t
  {
    PlacementsAreAll(n, n, t);
  }

  // ----- counting column by column -----

  /** The completions whose next queen stands in column i or further right. */
  ghost function From(n: nat, q: Placement, i: nat): (s: set<Placement>)
    requires |q| < n
  {
    set t | t in Completions(n, q) && |t| == n && t[|q|] >= i
  }

  lemma FromFirst(n: nat, q: Placement)
    requires |q| < n
    ensures From(n, q, 0) == Completions(n, q)
  {
    forall t | t in Completions(n, q)
      ensures t in From(n, q, 0)
    {
      InCompletions(n, q, t);
    }
  }

  lemma FromPast(n: nat, q: Placement)
    requires |q| < n
    ensures From(n, q, n) == {}
  {
    forall t | t in From(n, q, n)
      ensures false
    {
      InCompletions(n, q, t);
    }
  }

  lemma FromStep(n: nat, q: Placement, i: nat)
    requires |q| < n
    ensures |From(n, q, i)| == |From(n, q, i + 1)| + |Completions(n, q + [i])|
  {
    var A, B := From(n, q, i + 1), Completions(n, q + [i]);
    forall t
      ensures t in From(n, q, i) <==> t in A + B
      ensures !(t in A && t in B)
    {
      InCompletions(n, q, t);
      InCompletions(n, q + [i], t);
      if |t| == n && q <= t {
        assert q + [i] <= t <==> t[|q|] == i;
      }
    }
    assert From(n, q, i) == A + B && A !! B;
  }

  lemma PrefixSafe(q: Placement, t: Placement)
    requires Safe(t) && q <= t
    ensures Safe(q)
  {
    forall a, b | 0 <= a < b < |q|
      ensures !Attack(a, q[a], b, q[b])
    {
      assert !Attack(a, t[a], b, t[b]);
    }
  }

  lemma NoneWhenAttacked(n: nat, q: Placement, i: nat)
    requires Attacked(q, i)
    ensures Completions(n, q + [i]) == {}
  {
    SafeStep(q, i);
    forall t | t in Completions(n, q + [i])
      ensures false
    {
      InCompletions(n, q + [i], t);
      PrefixSafe(q + [i], t);
    }
  }

  lemma OneWhenFull(n: nat, q: Placement)
    requires |q| == n && OnBoard(n, q) && Safe(q)
    ensures Completions(n, q) == {q}
  {
    forall t
      ensures t in Completions(n, q) <==> t == q
    {
      InCompletions(n, q, t);
    }
  }

  /** With a queen in every row every column is taken. */
  lemma AllTaken(n: nat, q: Placement, i: nat)
    requires |q| == n && OnBoard(n, q) && Safe(q) && i < n
    ensures Attacked(q, i)
  {
    if i !in q {
      var S := set r | 0 <= r < |q| :: q[r];
      DistinctCard(q);
      assert S <= Columns(n) - {i};
      SubsetSize(S, Columns(n) - {i});
    }
    var r :| 0 <= r < |q| && q[r] == i;
    assert Attack(r, q[r], |q|, i);
  }

  lemma {:induction false} DistinctCard(q: Placement)
    requires Safe(q)
    ensures |set r | 0 <= r < |q| :: q[r]| == |q|
  {
    if q != [] {
      var n := |q| - 1;
      var p := q[..n];
      assert Safe(p) by {
        assert q == p + [q[n]];
        SafeStep(p, q[n]);
      }
      DistinctCard(p);
      var S := set r | 0 <= r < |p| :: p[r];
      forall r | 0 <= r < n
        ensures p[r] != q[n]
      {
        assert !Attack(r, q[r], n, q[n]);
      }
      assert (set r | 0 <= r < |q| :: q[r]) == S + {q[n]};
    }
  }

  // ----- the mirror image -----

  ghost function Mirror(n: nat, q: Placement): (m: Placement)
    requires OnBoard(n, q)
    ensures OnBoard(n, m) && |m| == |q|
    ensures forall r | 0 <= r < |q| :: m[r] == n - 1 - q[r]
  {
    seq(|q|, r requires 0 <= r < |q| => n - 1 - q[r])
  }

  lemma MirrorTwice(n: nat, q: Placement)
    requires OnBoard(n, q)
    ensures Mirror(n, Mirror(n, q)) == q
  {
  }

  lemma MirrorSafe(n: nat, q: Placement)
    requires OnBoard(n, q) && Safe(q)
    ensures Safe(Mirror(n, q))
  {
    var m := Mirror(n, q);
    forall a, b | 0 <= a < b < |q|
      ensures !Attack(a, m[a], b, m[b])
    {
      assert !Attack(a, q[a], b, q[b]);
    }
  }

  /** There are no more solutions from column i than from its mirror column. */
  lemma MirrorAtMost(n: nat, i: nat)
    requires i < n
    ensures |Completions(n, [i])| <= |Completions(n, [n - 1 - i])|
  {
    var A, B := Completions(n, [i]), Completions(n, [n - 1 - i]);
    forall t | t in A
      ensures OnBoard(n, t) && Mirror(n, t) in B
    {
      InCompletions(n, [i], t);
      MirrorSafe(n, t);
      assert t[0] == i;
      assert [n - 1 - i] <= Mirror(n, t);
      InCompletions(n, [n - 1 - i], Mirror(n, t));
    }
    MirrorInjects(n, A, B);
  }

  lemma {:induction false} MirrorInjects(n: nat, A: set<Placement>, B: set<Placement>)
    requires forall t | t in A :: OnBoard(n, t) && Mirror(n, t) in B
    ensures |A| <= |B|
  {
    if A != {} {
      var t :| t in A;
      forall u | u in A - {t}
        ensures Mirror(n, u) in B - {Mirror(n, t)}
      {
        MirrorTwice(n, u);
        MirrorTwice(n, t);
      }
      MirrorInjects(n, A - {t}, B - {Mirror(n, t)});
    }
  }

  /** Mirroring exchanges the first column's choices: their counts agree. */
  lemma MirrorCount(n: nat, i: nat)
    requires i < n
    ensures |Completions(n, [i])| == |Completions(n, [n - 1 - i])|
  {
    MirrorAtMost(n, i);
    MirrorAtMost(n, n - 1 - i);
  }

  // ----- splitting by the first queen -----

  /** The number of solutions whose first queen stands in one of the columns a..b. */
  ghost function Between(n: nat, a: nat, b: nat): (c: nat)
    decreases b - a
  {
    if a >= b then 0 else |Completions(n, [a])| + Between(n, a + 1, b)
  }

  lemma {:induction false} BetweenIsFrom(n: nat, a: nat)
    requires 0 < n && a <= n
    ensures Between(n, a, n) == |From(n, [], a)|
    decreases n - a
  {
    if a == n {
      FromPast(n, []);
    } else {
      BetweenIsFrom(n, a + 1);
      FromStep(n, [], a);
      assert [] + [a] == [a];
    }
  }

  lemma {:induction false} BetweenLast(n: nat, a: nat, b: nat)
    requires a <= b
    ensures Between(n, a, b + 1) == Between(n, a, b) + |Completions(n, [b])|
    decreases b - a
  {
    if a < b {
      BetweenLast(n, a + 1, b);
    }
  }

  /** The right half mirrors the left half. */
  lemma {:induction false} HalvesAgree(n: nat, k: nat)
    requires k <= n
    ensures Between(n, n - k, n) == Between(n, 0, k)
  {
    if k != 0 {
      HalvesAgree(n, k - 1);
      BetweenLast(n, 0, k - 1);
      MirrorCount(n, k - 1);
    }
  }

  lemma {:induction false} BetweenSplit(n: nat, a: nat, b: nat, c: nat)
    requires a <= b <= c
    ensures Between(n, a, c) == Between(n, a, b) + Between(n, b, c)
    decreases b - a
  {
    if a < b {
      BetweenSplit(n, a + 1, b, c);
    }
  }

  /** Twice the left half, and the middle column once when there is one, is everything. */
  lemma DoubledHalf(n: nat)
    requires 0 < n
    ensures 2 * Between(n, 0, n / 2) + (if n % 2 == 1 then |Completions(n, [n / 2])| else 0) == |Solutions(n)|
  {
    BetweenIsFrom(n, 0);
    FromFirst(n, []);
    HalvesAgree(n, n / 2);
    BetweenSplit(n, 0, n / 2, n);
    BetweenSplit(n, n / 2, n - n / 2, n);
    if n % 2 == 1 {
      BetweenLast(n, n / 2, n / 2);
    }
  }

  // ----- how large the counts can be -----

  function Factorial(k: nat): (f: nat)
    ensures f >= 1
  {
    if k == 0 then 1 else Factorial(k - 1) * k
  }

  /** The columns from i on that q leaves free. */
  ghost function Free(n: nat, q: Placement, i: nat): (s: set<nat>) {
    set c | c in Columns(n) && c >= i && c !in q
  }

  lemma FreeStep(n: nat, q: Placement, i: nat)
    requires i < n
    ensures |Free(n, q, i + 1)| <= |Free(n, q, i)|
    ensures !Attacked(q, i) ==> |Free(n, q, i)| == |Free(n, q, i + 1)| + 1
  {
    var c: nat := i + 1;
    SubsetSize(Free(n, q, c), Free(n, q, i));
    if !Attacked(q, i) {
      forall r | 0 <= r < |q|
        ensures q[r] != i
      {
        assert !Attack(r, q[r], |q|, i);
      }
      assert Free(n, q, i) == Free(n, q, c) + {i};
    }
  }

  lemma FreeFirst(n: nat, q: Placement)
    requires OnBoard(n, q) && Safe(q)
    ensures |Free(n, q, 0)| == n - |q|
  {
    DistinctCard(q);
    var S := set r | 0 <= r < |q| :: q[r];
    assert Free(n, q, 0) == Columns(n) - S;
    assert S <= Columns(n);
  }

  lemma Times(a: nat, b: nat, f: nat)
    ensures a <= b ==> a * f <= b * f
    ensures b == a + 1 ==> b * f == a * f + f
  {
  }

  lemma {:induction false} FromBound(n: nat, q: Placement, i: nat)
    requires |q| < n && OnBoard(n, q) && Safe(q) && i <= n
    ensures |From(n, q, i)| <= |Free(n, q, i)| * Factorial(n - |q| - 1)
    decreases n - |q|, n - i
  {
    hide From, Free, Factorial, Completions, Safe, Attacked;
    if i == n {
      FromPast(n, q);
    } else {
      FromBound(n, q, i + 1);
      FromStep(n, q, i);
      FreeStep(n, q, i);
      Times(|Free(n, q, i + 1)|, |Free(n, q, i)|, Factorial(n - |q| - 1));
      if Attacked(q, i) {
        NoneWhenAttacked(n, q, i);
      } else {
        SafeStep(q, i);
        CountBound(n, q + [i]);
      }
    }
  }

  /** A safe start of k queens has at most (n - k)! completions. */
  lemma {:induction false} CountBound(n: nat, q: Placement)
    requires OnBoard(n, q) && Safe(q)
    ensures |Completions(n, q)| <= Factorial(n - |q|)
    decreases n - |q|, n + 1
  {
    if |q| == n {
      OneWhenFull(n, q);
    } else {
      FromFirst(n, q);
      FromBound(n, q, 0);
      FreeFirst(n, q);
      hide From, Free, Completions, Safe;
      assert Factorial(n - |q|) == Factorial(n - |q| - 1) * (n - |q|);
    }
  }
}
