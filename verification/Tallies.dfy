/** Lists of words with counts, and how the counts of a word add up over lists and files. */
module Tallies {

  type Word = string

  datatype Entry = Entry(word: Word, count: int)

  type File = seq<Entry>

  // ----- the order of words -----

  /** Lexicographic order. */
  predicate Less(a: Word, b: Word) {
    b != [] && (a == [] || a[0] < b[0] || (a[0] == b[0] && Less(a[1..], b[1..])))
  }

  lemma {:induction false} LessTotal(a: Word, b: Word)
    ensures a == b || Less(a, b) || Less(b, a)
    ensures !(Less(a, b) && Less(b, a)) && !Less(a, a)
    decreases |a| + |b|
  {
    if a != [] && b != [] && a[0] == b[0] {
      LessTotal(a[1..], b[1..]);
      assert a == [a[0]] + a[1..] && b == [b[0]] + b[1..];
    }
    if a != [] {
      LessIrreflexive(a);
    }
  }

  lemma {:induction false} LessIrreflexive(a: Word)
    ensures !Less(a, a)
  {
    if a != [] {
      LessIrreflexive(a[1..]);
    }
  }

  lemma {:induction false} LessTransitive(a: Word, b: Word, c: Word)
    requires Less(a, b) && Less(b, c)
    ensures Less(a, c)
  {
    if a != [] && a[0] == b[0] && b[0] == c[0] {
      LessTransitive(a[1..], b[1..], c[1..]);
    }
  }

  /** b comes later where the two first differ, or is longer. */
  lemma {:induction false} LessIsLexicographic(a: Word, b: Word)
    ensures Less(a, b) <==> exists k: nat :: k <= |a| && k < |b| && a[..k] == b[..k] && (k == |a| || a[k] < b[k])
  {
    if a != [] && b != [] {
      LessIsLexicographic(a[1..], b[1..]);
      if a[0] == b[0] && Less(a[1..], b[1..]) {
        var k: nat :| k <= |a[1..]| && k < |b[1..]| && a[1..][..k] == b[1..][..k] && (k == |a[1..]| || a[1..][k] < b[1..][k]);
        LaterByOne(a, b, k);
      } else if a[0] < b[0] {
        assert a[..0] == b[..0];
      }
      if k: nat :| k <= |a| && k < |b| && a[..k] == b[..k] && (k == |a| || a[k] < b[k]) {
        if k > 0 {
          EarlierByOne(a, b, k);
        }
      }
    } else if b != [] {
      assert a[..0] == b[..0];
    }
  }

  lemma LaterByOne(a: Word, b: Word, k: nat)
    requires a != [] && b != [] && a[0] == b[0] && k < |a| && k + 1 < |b| && a[1..][..k] == b[1..][..k]
    ensures a[..k + 1] == b[..k + 1]
  {
    assert a[..k + 1] == [a[0]] + a[1..][..k];
    assert b[..k + 1] == [b[0]] + b[1..][..k];
  }

  lemma EarlierByOne(a: Word, b: Word, k: nat)
    requires 0 < k <= |a| && k < |b| && a[..k] == b[..k]
    ensures a[0] == b[0] && a[1..][..k - 1] == b[1..][..k - 1]
  {
    assert a[0] == a[..k][0] && b[0] == b[..k][0];
    assert a[1..][..k - 1] == a[..k][1..] && b[1..][..k - 1] == b[..k][1..];
  }

  predicate AtMost(a: Word, b: Word) { a == b || Less(a, b) }

  lemma AtMostLess(a: Word, b: Word, c: Word)
    ensures AtMost(a, b) && Less(b, c) ==> Less(a, c)
    ensures Less(a, b) && AtMost(b, c) ==> Less(a, c)
    ensures AtMost(a, b) && AtMost(b, c) ==> AtMost(a, c)
  {
    if Less(a, b) && Less(b, c) {
      LessTransitive(a, b, c);
    }
  }

  // ----- tallies -----

  /** What is added up: the counts, or one for every entry. */
  datatype Kind = Counts | Entries

  function Weight(k: Kind, e: Entry, w: Word): (n: int) {
    if e.word != w then 0 else if k.Counts? then e.count else 1
  }

  function Tally(k: Kind, f: File, w: Word): (n: int) {
    if f == [] then 0 else Weight(k, f[0], w) + Tally(k, f[1..], w)
  }

  function TallyAll(k: Kind, files: seq<File>, w: Word): (n: int) {
    if files == [] then 0 else Tally(k, files[0], w) + TallyAll(k, files[1..], w)
  }

  lemma {:induction false} TallyAppend(k: Kind, f: File, g: File, w: Word)
    ensures Tally(k, f + g, w) == Tally(k, f, w) + Tally(k, g, w)
  {
    if f == [] {
      assert f + g == g;
    } else {
      assert (f + g)[1..] == f[1..] + g;
      TallyAppend(k, f[1..], g, w);
    }
  }

  lemma {:induction false} TallyAllAppend(k: Kind, files: seq<File>, more: seq<File>, w: Word)
    ensures TallyAll(k, files + more, w) == TallyAll(k, files, w) + TallyAll(k, more, w)
  {
    if files == [] {
      assert files + more == more;
    } else {
      assert (files + more)[1..] == files[1..] + more;
      TallyAllAppend(k, files[1..], more, w);
    }
  }

  lemma TallyOne(k: Kind, e: Entry, w: Word)
    ensures Tally(k, [e], w) == Weight(k, e, w)
  {
  }

  lemma TallyAllOne(k: Kind, f: File, w: Word)
    ensures TallyAll(k, [f], w) == Tally(k, f, w)
  {
  }

  /** Moving the reader of file i past its first entry; a file that is read to its end is closed. */
  function Advance(files: seq<File>, i: nat): (r: seq<File>)
    requires i < |files| && files[i] != []
  {
    if |files[i]| == 1 then files[..i] + files[i + 1..] else files[i := files[i][1..]]
  }

  lemma TallyAdvance(k: Kind, files: seq<File>, i: nat, w: Word)
    requires i < |files| && files[i] != []
    ensures TallyAll(k, Advance(files, i), w) == TallyAll(k, files, w) - Weight(k, files[i][0], w)
  {
    var a, b, f := files[..i], files[i + 1..], files[i];
    assert files == a + ([f] + b);
    TallyAllAppend(k, a, [f] + b, w);
    TallyAllAppend(k, [f], b, w);
    TallyAllOne(k, f, w);
    if |f| == 1 {
      TallyAllAppend(k, a, b, w);
      assert f[1..] == [];
    } else {
      assert Advance(files, i) == a + ([f[1..]] + b);
      TallyAllAppend(k, a, [f[1..]] + b, w);
      TallyAllAppend(k, [f[1..]], b, w);
      TallyAllOne(k, f[1..], w);
    }
  }

  ghost function Rank(files: seq<File>): (n: nat) {
    if files == [] then 0 else |files[0]| + Rank(files[1..])
  }

  lemma {:induction false} RankAppend(a: seq<File>, b: seq<File>)
    ensures Rank(a + b) == Rank(a) + Rank(b)
  {
    if a == [] {
      assert a + b == b;
    } else {
      assert (a + b)[1..] == a[1..] + b;
      RankAppend(a[1..], b);
    }
  }

  lemma RankOne(f: File)
    ensures Rank([f]) == |f|
  {
  }

  lemma RankAdvance(files: seq<File>, i: nat)
    requires i < |files| && files[i] != []
    ensures Rank(Advance(files, i)) == Rank(files) - 1
  {
    hide Rank;
    var a, b, f := files[..i], files[i + 1..], files[i];
    assert files == a + [f] + b;
    RankMiddle(a, f, b);
    if |f| == 1 {
      assert Advance(files, i) == a + b;
      RankAppend(a, b);
    } else {
      assert Advance(files, i) == a + [f[1..]] + b;
      RankMiddle(a, f[1..], b);
    }
  }

  lemma RankMiddle(a: seq<File>, f: File, b: seq<File>)
    ensures Rank(a + [f] + b) == Rank(a) + |f| + Rank(b)
  {
    hide Rank;
    RankAppend(a + [f], b);
    RankAppend(a, [f]);
    RankOne(f);
  }

  /** A list of the words in m, each once and with its count. */
  ghost predicate Lists(f: File, m: map<Word, int>) {
    && (forall w :: Tally(Counts, f, w) == if w in m then m[w] else 0)
    && (forall w :: Tally(Entries, f, w) == if w in m then 1 else 0)
  }

  lemma {:induction false} EntriesNonNegative(f: File, w: Word)
    ensures Tally(Entries, f, w) >= 0
  {
    if f != [] {
      EntriesNonNegative(f[1..], w);
    }
  }

  /** An entry of the file counts. */
  lemma {:induction false} EntryCounts(f: File, i: nat)
    requires i < |f|
    ensures Tally(Entries, f, f[i].word) >= 1
  {
    EntriesNonNegative(f[1..], f[i].word);
    if i > 0 {
      EntryCounts(f[1..], i - 1);
    }
  }

  /** A word with one entry has its count there. */
  lemma {:induction false} OnlyEntry(f: File, i: nat)
    requires i < |f| && Tally(Entries, f, f[i].word) == 1
    ensures Tally(Counts, f, f[i].word) == f[i].count
  {
    var w := f[i].word;
    if i == 0 {
      NoEntry(f[1..], w);
    } else {
      EntryCounts(f[1..], i - 1);
      OnlyEntry(f[1..], i - 1);
    }
  }

  lemma {:induction false} NoEntry(f: File, w: Word)
    requires Tally(Entries, f, w) == 0
    ensures Tally(Counts, f, w) == 0 && forall i | 0 <= i < |f| :: f[i].word != w
  {
    if f != [] {
      EntriesNonNegative(f[1..], w);
      NoEntry(f[1..], w);
    }
  }
}
