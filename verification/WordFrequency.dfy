/** Sorting words by frequency when they do not fit into memory: count into segments sorted by word,
    combine the segments into count files sorted by count, merge the count files. */
module WordFrequency {
  import opened Tallies

  // ----- orders of files -----

  ghost predicate Ascending(f: File) {
    forall i, j | 0 <= i < j < |f| :: Less(f[i].word, f[j].word)
  }

  ghost predicate NonIncreasing(f: File) {
    forall i, j | 0 <= i < j < |f| :: f[i].count >= f[j].count
  }

  ghost predicate Positive(f: File) {
    forall i | 0 <= i < |f| :: f[i].count > 0
  }

  /** The order of pairs (count, word). */
  predicate Above(e: Entry, f: Entry) {
    e.count > f.count || (e.count == f.count && AtMost(f.word, e.word))
  }

  ghost predicate Descending(f: File) {
    forall i, j | 0 <= i < j < |f| :: Above(f[i], f[j])
  }

  // ----- from a map to a list -----

  lemma {:induction false} LeastWord(s: set<Word>)
    requires s != {}
    ensures exists w :: w in s && forall v | v in s :: AtMost(w, v)
  {
    hide AtMost;
    var x :| x in s;
    var t := s - {x};
    assert s == t + {x};
    AtMostTotal(x, x);
    if t == {} {
      assert forall v | v in s :: AtMost(x, v);
    } else {
      LeastWord(t);
      var w :| w in t && forall v | v in t :: AtMost(w, v);
      AtMostTotal(w, x);
      if AtMost(w, x) {
        assert forall v | v in s :: AtMost(w, v);
      } else {
        forall v | v in s
          ensures AtMost(x, v)
        {
          AtMostLess(x, w, v);
        }
      }
    }
  }

  lemma AtMostTotal(a: Word, b: Word)
    ensures AtMost(a, b) || AtMost(b, a)
  {
    LessTotal(a, b);
  }

  lemma {:induction false} GreatestEntry(m: map<Word, int>)
    requires m.Keys != {}
    ensures exists w :: w in m && forall v | v in m :: Above(Entry(w, m[w]), Entry(v, m[v]))
  {
    var x :| x in m;
    var t := m - {x};
    assert m.Keys == t.Keys + {x};
    if t.Keys == {} {
      assert forall v | v in m :: Above(Entry(x, m[x]), Entry(v, m[v]));
    } else {
      assert |t.Keys| < |m.Keys|;
      GreatestEntry(t);
      var w :| w in t && forall v | v in t :: Above(Entry(w, t[w]), Entry(v, t[v]));
      LessTotal(w, x);
      var y := if Above(Entry(w, m[w]), Entry(x, m[x])) then w else x;
      forall v | v in m
        ensures Above(Entry(y, m[y]), Entry(v, m[v]))
      {
        if v != x {
          assert Above(Entry(w, t[w]), Entry(v, t[v]));
          AtMostLess(v, w, x);
        }
      }
    }
  }

  /** f lists the part of m that is not in rest. */
  ghost predicate ListsPart(f: File, m: map<Word, int>, rest: map<Word, int>) {
    && rest.Keys <= m.Keys && (forall w | w in rest :: rest[w] == m[w])
    && (forall w :: Tally(Counts, f, w) == if w in m && w !in rest then m[w] else 0)
    && (forall w :: Tally(Entries, f, w) == if w in m && w !in rest then 1 else 0)
  }

  lemma ListsStep(f: File, m: map<Word, int>, rest: map<Word, int>, w: Word)
    requires ListsPart(f, m, rest) && w in rest
    ensures ListsPart(f + [Entry(w, rest[w])], m, rest - {w})
  {
    hide Tally;
    var e := Entry(w, rest[w]);
    forall v, k: Kind
      ensures Tally(k, f + [e], v) == Tally(k, f, v) + Weight(k, e, v)
    {
      TallyAppend(k, f, [e], v);
      TallyOne(k, e, v);
    }
  }

  /** Every entry is an entry of the map. */
  lemma ListsEntry(f: File, m: map<Word, int>, rest: map<Word, int>, i: nat)
    requires ListsPart(f, m, rest) && i < |f|
    ensures f[i].word in m && f[i].word !in rest && f[i].count == m[f[i].word]
  {
    hide Tally;
    EntryCounts(f, i);
    OnlyEntry(f, i);
  }

  /** The words of a std::map, in its order. */
  method ListWords(m: map<Word, int>) returns (f: File)
    ensures Lists(f, m) && Ascending(f) && |f| == |m|
  {
    f := [];
    var rest := m;
    hide Tally, Less, AtMost;
    assert ListsPart(f, m, rest) by { EmptyList(m); }
    while rest.Keys != {}
      invariant ListsPart(f, m, rest) && Ascending(f) && |f| + |rest| == |m|
      invariant forall i, w | 0 <= i < |f| && w in rest :: Less(f[i].word, w)
      decreases |rest.Keys|
    {
      LeastWord(rest.Keys);
      var w :| w in rest && forall v | v in rest.Keys :: AtMost(w, v);
      ListsStep(f, m, rest, w);
      forall v | v in rest - {w}
        ensures Less(w, v)
      {
        StrictlyLess(w, v);
      }
      OneLess(rest, w);
      f := f + [Entry(w, rest[w])];
      rest := rest - {w};
    }
  }

  lemma OneLess(m: map<Word, int>, w: Word)
    requires w in m
    ensures |m - {w}| == |m| - 1
  {
    assert (m - {w}).Keys == m.Keys - {w};
  }

  lemma EmptyList(m: map<Word, int>)
    ensures ListsPart([], m, m)
  {
  }

  lemma StrictlyLess(a: Word, b: Word)
    requires AtMost(a, b) && a != b
    ensures Less(a, b)
  {
  }

  /** output: the file of all counts, from the greatest pair (count, word) down. */
  method Output(m: map<Word, int>) returns (f: File)
    ensures Lists(f, m) && Descending(f) && |f| == |m|
  {
    f := [];
    var rest := m;
    hide Tally, Above;
    assert ListsPart(f, m, rest) by { EmptyList(m); }
    while rest.Keys != {}
      invariant ListsPart(f, m, rest) && Descending(f) && |f| + |rest| == |m|
      invariant forall i, w | 0 <= i < |f| && w in rest :: Above(f[i], Entry(w, m[w]))
      decreases |rest.Keys|
    {
      GreatestEntry(rest);
      var w :| w in rest && forall v | v in rest :: Above(Entry(w, rest[w]), Entry(v, rest[v]));
      ListsStep(f, m, rest, w);
      OneLess(rest, w);
      f := f + [Entry(w, rest[w])];
      rest := rest - {w};
    }
  }

  // ----- reading the input -----

  /** An input file: its words, and whether white space follows the last of them. */
  datatype Text = Text(words: seq<Word>, trailing: bool)

  /** How often a word occurs in all files. */
  ghost function Occurrences(texts: seq<Text>, w: Word): (n: nat) {
    if texts == [] then 0 else Occurrences(texts[..|texts| - 1], w) + multiset(texts[|texts| - 1].words)[w]
  }

  function CountOf(m: map<Word, int>, w: Word): (n: int) { if w in m then m[w] else 0 }

  ghost predicate Counted(m: map<Word, int>, words: seq<Word>) {
    && (forall w :: CountOf(m, w) == multiset(words)[w])
    && (forall w | w in m :: m[w] > 0)
  }

  lemma CountNext(m: map<Word, int>, words: seq<Word>, w: Word)
    requires Counted(m, words)
    ensures Counted(m[w := CountOf(m, w) + 1], words + [w])
  {
  }

  lemma OneMore(m: map<Word, int>, w: Word, n: int)
    ensures |m[w := n]| == if w in m then |m| else |m| + 1
  {
    assert m[w := n].Keys == m.Keys + {w};
  }

  /** No file holds more words than a map may. */
  ghost predicate Small(files: seq<File>, limit: nat) {
    forall i | 0 <= i < |files| :: |files[i]| <= limit + 1
  }

  lemma SmallNone(limit: nat)
    ensures Small([], limit)
  {
  }

  lemma SmallMore(files: seq<File>, f: File, limit: nat)
    requires Small(files, limit) && |f| <= limit + 1
    ensures Small(files + [f], limit)
  {
  }

  /** The inner loop: counts words from position start until there are too many or no more. */
  method CountWords(words: seq<Word>, start: nat, limit: nat) returns (m: map<Word, int>, pos: nat, ended: bool)
    requires start <= |words|
    ensures start <= pos <= |words| && Counted(m, words[start..pos])
    ensures ended ==> pos == |words| && |m| <= limit
    ensures !ended ==> pos > start && |m| == limit + 1
  {
    m, pos := map[], start;
    while pos < |words|
      invariant start <= pos <= |words| && Counted(m, words[start..pos]) && |m| <= limit
    {
      var w := words[pos];
      CountNext(m, words[start..pos], w);
      assert words[start..pos + 1] == words[start..pos] + [w];
      OneMore(m, w, CountOf(m, w) + 1);
      m := m[w := CountOf(m, w) + 1];
      pos := pos + 1;
      if |m| > limit {
        return m, pos, false;
      }
    }
    return m, pos, true;
  }

  /** A segment file: sorted by word. */
  ghost predicate IsSegment(f: File) { Ascending(f) && Positive(f) }

  lemma SegmentOf(f: File, m: map<Word, int>, words: seq<Word>)
    requires Lists(f, m) && Ascending(f) && Counted(m, words)
    ensures IsSegment(f) && forall w :: Tally(Counts, f, w) == multiset(words)[w]
  {
    hide Tally;
    forall w
      ensures Tally(Counts, f, w) == multiset(words)[w]
    {
      assert CountOf(m, w) == multiset(words)[w];
    }
    forall i | 0 <= i < |f|
      ensures f[i].count > 0
    {
      ListsEntry(f, m, map[], i);
    }
  }

  /** The segments hold the words so far. */
  ghost predicate Hold(segments: seq<File>, texts: seq<Text>, words: seq<Word>) {
    && (forall i | 0 <= i < |segments| :: IsSegment(segments[i]))
    && (forall w :: TallyAll(Counts, segments, w) == Occurrences(texts, w) + multiset(words)[w])
  }

  lemma HoldMore(segments: seq<File>, texts: seq<Text>, words: seq<Word>, f: File, more: seq<Word>)
    requires Hold(segments, texts, words) && IsSegment(f) && forall w :: Tally(Counts, f, w) == multiset(more)[w]
    ensures Hold(segments + [f], texts, words + more)
  {
    hide Tally, TallyAll, IsSegment, Occurrences;
    forall w
      ensures TallyAll(Counts, segments + [f], w) == Occurrences(texts, w) + multiset(words + more)[w]
    {
      TallyAllAppend(Counts, segments, [f], w);
      TallyAllOne(Counts, f, w);
    }
  }

  /** One input file, in as many segments as it takes. */
  method ReadText(text: Text, limit: nat, segments0: seq<File>, ghost texts: seq<Text>) returns (segments: seq<File>)
    requires Hold(segments0, texts, []) && Small(segments0, limit)
    ensures Hold(segments, texts, text.words) && Small(segments, limit)
  {
    segments := segments0;
    var pos, eof := 0, false;
    assert text.words[..0] == [];
    hide Hold, Lists, Counted, Small;
    while !eof
      invariant pos <= |text.words| && Hold(segments, texts, text.words[..pos]) && Small(segments, limit)
      invariant eof ==> pos == |text.words|
      decreases |text.words| - pos, !eof
    {
      var m, next, ended := CountWords(text.words, pos, limit);
      var f := ListWords(m);
      SegmentOf(f, m, text.words[pos..next]);
      HoldMore(segments, texts, text.words[..pos], f, text.words[pos..next]);
      assert text.words[..pos] + text.words[pos..next] == text.words[..next];
      SmallMore(segments, f, limit);
      segments := segments + [f];
      eof := ended || (next == |text.words| && !text.trailing);
      pos := next;
    }
    assert text.words[..|text.words|] == text.words;
  }

  lemma HoldText(segments: seq<File>, texts: seq<Text>, text: Text)
    requires Hold(segments, texts, text.words)
    ensures Hold(segments, texts + [text], [])
  {
    hide TallyAll, IsSegment;
    assert (texts + [text])[..|texts|] == texts;
  }

  /** input */
  method Input(texts: seq<Text>, limit: nat) returns (segments: seq<File>)
    ensures forall i | 0 <= i < |segments| :: IsSegment(segments[i])
    ensures forall w :: TallyAll(Counts, segments, w) == Occurrences(texts, w)
    ensures Small(segments, limit)
  {
    segments := [];
    assert Hold(segments, texts[..0], []);
    for i := 0 to |texts|
      invariant Hold(segments, texts[..i], []) && Small(segments, limit)
    {
      hide Hold;
      segments := ReadText(texts[i], limit, segments, texts[..i]);
      HoldText(segments, texts[..i], texts[i]);
      assert texts[..i] + [texts[i]] == texts[..i + 1];
    }
    assert texts[..|texts|] == texts;
  }

  // ----- combining the segments -----

  /** No segment that is being read is at its end, and none has a word below last left. */
  ghost predicate Reading(keys: seq<File>, last: Word) {
    forall i | 0 <= i < |keys| :: keys[i] != [] && IsSegment(keys[i]) && AtMost(last, keys[i][0].word)
  }

  /** Every word stands in one count file at most, and those in the files are below last. */
  ghost predicate Closed(files: seq<File>, last: Word) {
    && (forall w :: ClosedAt(files, last, w))
    && (forall i | 0 <= i < |files| :: NonIncreasing(files[i]) && Positive(files[i]))
  }

  ghost predicate ClosedAt(files: seq<File>, last: Word, w: Word) {
    || (TallyAll(Entries, files, w) == 0 && TallyAll(Counts, files, w) == 0)
    || (TallyAll(Entries, files, w) == 1 && TallyAll(Counts, files, w) > 0 && Less(w, last))
  }

  /** The words that are being counted are new and not above last. */
  ghost predicate Open(counts: map<Word, int>, files: seq<File>, last: Word) {
    forall w | w in counts :: counts[w] > 0 && AtMost(w, last) && TallyAll(Entries, files, w) == 0
  }

  /** Nothing is lost: the count files, the map and what is left to read add up. */
  ghost predicate Balanced(segments: seq<File>, keys: seq<File>, files: seq<File>, counts: map<Word, int>) {
    forall w :: BalancedAt(segments, keys, files, counts, w)
  }

  ghost predicate BalancedAt(segments: seq<File>, keys: seq<File>, files: seq<File>, counts: map<Word, int>, w: Word) {
    TallyAll(Counts, files, w) + CountOf(counts, w) + TallyAll(Counts, keys, w) == TallyAll(Counts, segments, w)
  }

  /** pop_heap finds a segment whose next word is least. */
  predicate Least(keys: seq<File>, i: nat)
    requires forall j | 0 <= j < |keys| :: keys[j] != []
  {
    i < |keys| && forall j | 0 <= j < |keys| :: AtMost(keys[i][0].word, keys[j][0].word)
  }

  lemma LeastExists(keys: seq<File>)
    requires keys != [] && forall j | 0 <= j < |keys| :: keys[j] != []
    ensures exists i: nat :: i < |keys| && Least(keys, i)
  {
    var words := set j | 0 <= j < |keys| :: keys[j][0].word;
    assert keys[0][0].word in words;
    LeastWord(words);
    var w :| w in words && forall v | v in words :: AtMost(w, v);
    var i :| 0 <= i < |keys| && keys[i][0].word == w;
    assert Least(keys, i);
  }

  /** A greater word comes up. */
  lemma LastRises(keys: seq<File>, files: seq<File>, counts: map<Word, int>, last: Word, i: nat)
    requires Reading(keys, last) && Closed(files, last) && Open(counts, files, last) && Least(keys, i)
    ensures var u := keys[i][0].word; Reading(keys, u) && Closed(files, u) && Open(counts, files, u)
    ensures forall w | w in counts && keys[i][0].word != last :: Less(w, keys[i][0].word)
  {
    hide TallyAll, Less, IsSegment;
    var u := keys[i][0].word;
    forall w
      ensures ClosedAt(files, u, w) && (AtMost(w, last) ==> AtMost(w, u) && (u != last ==> Less(w, u)))
    {
      assert ClosedAt(files, last, w);
      AtMostLess(w, last, u);
    }
  }

  /** The words counted so far go into a count file. */
  lemma Close(files: seq<File>, counts: map<Word, int>, f: File, last: Word)
    requires Closed(files, last) && Open(counts, files, last) && Lists(f, counts) && Descending(f)
    requires forall w | w in counts :: Less(w, last)
    ensures Closed(files + [f], last)
    ensures forall w :: TallyAll(Counts, files + [f], w) == TallyAll(Counts, files, w) + CountOf(counts, w)
  {
    hide Tally, TallyAll, Less;
    forall w, k: Kind
      ensures TallyAll(k, files + [f], w) == TallyAll(k, files, w) + Tally(k, f, w)
    {
      TallyAllAppend(k, files, [f], w);
      TallyAllOne(k, f, w);
    }
    forall w
      ensures ClosedAt(files + [f], last, w)
    {
      assert ClosedAt(files, last, w);
    }
    forall i | 0 <= i < |f|
      ensures f[i].count > 0
    {
      ListsEntry(f, counts, map[], i);
    }
    assert NonIncreasing(f) by {
      forall i, j | 0 <= i < j < |f|
        ensures f[i].count >= f[j].count
      {
        assert Above(f[i], f[j]);
      }
    }
  }

  /** The next word is added to its count. */
  lemma AddEntry(segments: seq<File>, keys: seq<File>, files: seq<File>, counts: map<Word, int>, i: nat)
    requires i < |keys| && keys[i] != [] && Balanced(segments, keys, files, counts)
    ensures var e := keys[i][0];
            Balanced(segments, Advance(keys, i), files, counts[e.word := CountOf(counts, e.word) + e.count])
  {
    hide TallyAll, Advance;
    var e := keys[i][0];
    var counts' := counts[e.word := CountOf(counts, e.word) + e.count];
    forall w
      ensures BalancedAt(segments, Advance(keys, i), files, counts', w)
    {
      assert BalancedAt(segments, keys, files, counts, w);
      TallyAdvance(Counts, keys, i, w);
    }
  }

  lemma AdvanceReading(keys: seq<File>, i: nat, last: Word)
    requires Reading(keys, last) && i < |keys| && keys[i][0].word == last
    ensures Reading(Advance(keys, i), last)
  {
    hide Less;
    var f := keys[i];
    if |f| > 1 {
      assert Less(f[0].word, f[1].word);
      assert forall a | 0 <= a < |f[1..]| :: f[1..][a] == f[a + 1];
      assert IsSegment(f[1..]);
    }
  }

  lemma StillOpen(counts: map<Word, int>, files: seq<File>, last: Word, n: int)
    requires Open(counts, files, last) && Closed(files, last) && n > 0
    ensures Open(counts[last := CountOf(counts, last) + n], files, last)
  {
    hide TallyAll, Less;
    assert ClosedAt(files, last, last);
    LessIrreflexive(last);
  }

  /** The readers of all segments that are not empty. */
  method OpenAll(segments: seq<File>) returns (keys: seq<File>)
    ensures forall i | 0 <= i < |keys| :: keys[i] != [] && keys[i] in segments
    ensures forall w, k: Kind :: TallyAll(k, keys, w) == TallyAll(k, segments, w)
  {
    hide Tally, TallyAll;
    keys := [];
    assert segments[..0] == [];
    for n := 0 to |segments|
      invariant forall i | 0 <= i < |keys| :: keys[i] != [] && keys[i] in segments
      invariant forall w, k: Kind :: TallyAll(k, keys, w) == TallyAll(k, segments[..n], w)
    {
      OpenNext(segments, n, keys, if segments[n] == [] then keys else keys + [segments[n]]);
      if segments[n] != [] {
        keys := keys + [segments[n]];
      }
    }
    assert segments[..|segments|] == segments;
  }

  lemma OpenNext(segments: seq<File>, n: nat, keys: seq<File>, keys': seq<File>)
    requires n < |segments| && keys' == if segments[n] == [] then keys else keys + [segments[n]]
    requires forall w, k: Kind :: TallyAll(k, keys, w) == TallyAll(k, segments[..n], w)
    ensures forall w, k: Kind :: TallyAll(k, keys', w) == TallyAll(k, segments[..n + 1], w)
  {
    hide TallyAll;
    var f := segments[n];
    assert segments[..n + 1] == segments[..n] + [f];
    forall w, k: Kind
      ensures TallyAll(k, keys', w) == TallyAll(k, segments[..n + 1], w)
    {
      TallyAllAppend(k, segments[..n], [f], w);
      TallyAllAppend(k, keys, [f], w);
      TallyAllOne(k, f, w);
    }
  }

  lemma Beginning(segments: seq<File>, keys: seq<File>)
    requires forall i | 0 <= i < |segments| :: IsSegment(segments[i])
    requires forall i | 0 <= i < |keys| :: keys[i] != [] && keys[i] in segments
    requires forall w, k: Kind :: TallyAll(k, keys, w) == TallyAll(k, segments, w)
    ensures Reading(keys, "") && Closed([], "") && Open(map[], [], "") && Balanced(segments, keys, [], map[])
  {
    hide IsSegment, Tally;
    forall w
      ensures AtMost("", w) && ClosedAt([], "", w) && BalancedAt(segments, keys, [], map[], w)
    {
    }
  }

  lemma NextEntry(keys: seq<File>, last: Word)
    requires Reading(keys, last)
    ensures forall i | 0 <= i < |keys| :: keys[i] != [] && keys[i][0].count > 0
  {
    hide Less;
    forall i | 0 <= i < |keys|
      ensures keys[i] != [] && keys[i][0].count > 0
    {
      assert IsSegment(keys[i]);
    }
  }

  lemma CloseBalanced(segments: seq<File>, keys: seq<File>, files: seq<File>, counts: map<Word, int>, f: File)
    requires Balanced(segments, keys, files, counts)
    requires forall w :: TallyAll(Counts, files + [f], w) == TallyAll(Counts, files, w) + CountOf(counts, w)
    ensures Balanced(segments, keys, files + [f], map[])
  {
    hide TallyAll;
    forall w
      ensures BalancedAt(segments, keys, files + [f], map[], w)
    {
      assert BalancedAt(segments, keys, files, counts, w);
    }
  }

  lemma NothingOpen(files: seq<File>, last: Word)
    ensures Open(map[], files, last)
  {
  }

  /** At the end all remaining words are below some word. */
  lemma Ending(files: seq<File>, counts: map<Word, int>, last: Word)
    requires Closed(files, last) && Open(counts, files, last)
    ensures var end := last + "."; Closed(files, end) && Open(counts, files, end) && forall w | w in counts :: Less(w, end)
  {
    hide TallyAll, Less;
    var end := last + ".";
    LongerIsGreater(last);
    forall w
      ensures ClosedAt(files, end, w) && (AtMost(w, last) ==> Less(w, end))
    {
      assert ClosedAt(files, last, w);
      AtMostLess(w, last, end);
    }
  }

  lemma {:induction false} LongerIsGreater(a: Word)
    ensures Less(a, a + ".")
  {
    if a != [] {
      LongerIsGreater(a[1..]);
      assert (a + ".")[1..] == a[1..] + ".";
    }
  }

  lemma AllClosed(segments: seq<File>, files: seq<File>, last: Word)
    requires Closed(files, last) && Balanced(segments, [], files, map[])
    ensures forall i | 0 <= i < |files| :: NonIncreasing(files[i]) && Positive(files[i])
    ensures forall w :: TallyAll(Counts, files, w) == TallyAll(Counts, segments, w)
    ensures forall w :: TallyAll(Entries, files, w) == if TallyAll(Counts, segments, w) > 0 then 1 else 0
  {
    forall w
      ensures TallyAll(Counts, files, w) == TallyAll(Counts, segments, w)
      ensures TallyAll(Entries, files, w) == if TallyAll(Counts, segments, w) > 0 then 1 else 0
    {
      assert BalancedAt(segments, [], files, map[], w);
      assert ClosedAt(files, last, w);
    }
  }

  /** A count file for the words counted so far. */
  method CloseFile(files0: seq<File>, counts: map<Word, int>, last: Word, limit: nat,
                   ghost segments: seq<File>, ghost keys: seq<File>) returns (files: seq<File>)
    requires Closed(files0, last) && Open(counts, files0, last) && forall w | w in counts :: Less(w, last)
    requires Balanced(segments, keys, files0, counts) && Small(files0, limit) && |counts| <= limit + 1
    ensures Closed(files, last) && Balanced(segments, keys, files, map[]) && Small(files, limit)
  {
    hide Closed, Open, Balanced, TallyAll, Small;
    var f := Output(counts);
    Close(files0, counts, f, last);
    CloseBalanced(segments, keys, files0, counts, f);
    SmallMore(files0, f, limit);
    files := files0 + [f];
  }

  /** combine */
  method Combine(segments: seq<File>, limit: nat) returns (files: seq<File>)
    requires forall i | 0 <= i < |segments| :: IsSegment(segments[i])
    ensures forall i | 0 <= i < |files| :: NonIncreasing(files[i]) && Positive(files[i])
    ensures forall w :: TallyAll(Counts, files, w) == TallyAll(Counts, segments, w)
    ensures forall w :: TallyAll(Entries, files, w) == if TallyAll(Counts, segments, w) > 0 then 1 else 0
    ensures Small(files, limit)
  {
    hide Reading, Closed, Open, Balanced, TallyAll, Rank, Advance, Small, IsSegment, Less, AtMost, Least, CountOf, Tally;
    var keys := OpenAll(segments);
    var last: Word := "";
    var counts: map<Word, int> := map[];
    files := [];
    Beginning(segments, keys);
    SmallNone(limit);
    while keys != []
      invariant Reading(keys, last) && Closed(files, last) && Open(counts, files, last)
      invariant Balanced(segments, keys, files, counts)
      invariant Small(files, limit) && |counts| <= limit + 1 && (counts != map[] ==> last in counts)
      decreases Rank(keys)
    {
      NextEntry(keys, last);
      LeastExists(keys);
      var i: nat :| i < |keys| && Least(keys, i);
      LastRises(keys, files, counts, last, i);
      var e := keys[i][0];
      if e.word != last {
        last := e.word;
        if |counts| > limit {
          files := CloseFile(files, counts, last, limit, segments, keys);
          counts := map[];
          NothingOpen(files, last);
        }
      }
      Counting(segments, keys, files, counts, last, i);
      OneMore(counts, e.word, CountOf(counts, e.word) + e.count);
      counts := counts[e.word := CountOf(counts, e.word) + e.count];
      RankAdvance(keys, i);
      keys := Advance(keys, i);
    }
    if counts != map[] {
      Ending(files, counts, last);
      files := CloseFile(files, counts, last + ".", limit, segments, keys);
      AllClosed(segments, files, last + ".");
    } else {
      AllClosed(segments, files, last);
    }
  }

  lemma Counting(segments: seq<File>, keys: seq<File>, files: seq<File>, counts: map<Word, int>, last: Word, i: nat)
    requires Reading(keys, last) && Closed(files, last) && Open(counts, files, last)
    requires Balanced(segments, keys, files, counts) && i < |keys| && keys[i] != [] && keys[i][0].word == last
    ensures var counts' := counts[last := CountOf(counts, last) + keys[i][0].count];
            && Reading(Advance(keys, i), last) && Open(counts', files, last)
            && Balanced(segments, Advance(keys, i), files, counts')
  {
    hide Reading, Closed, Open, Balanced, Advance;
    NextEntry(keys, last);
    AddEntry(segments, keys, files, counts, i);
    StillOpen(counts, files, last, keys[i][0].count);
    AdvanceReading(keys, i, last);
  }

  // ----- merging the count files -----

  /** No count file that is being read is at its end, and all go down from at most top. */
  ghost predicate Falling(keys: seq<File>, out: File) {
    && NonIncreasing(out)
    && forall i | 0 <= i < |keys| ::
         && keys[i] != [] && NonIncreasing(keys[i])
         && (out != [] ==> keys[i][0].count <= out[|out| - 1].count)
  }

  /** pop_heap finds a file whose next count is greatest. */
  predicate Greatest(keys: seq<File>, i: nat)
    requires forall j | 0 <= j < |keys| :: keys[j] != []
  {
    i < |keys| && forall j | 0 <= j < |keys| :: keys[i][0].count >= keys[j][0].count
  }

  lemma {:induction false} GreatestExists(keys: seq<File>)
    requires keys != [] && forall j | 0 <= j < |keys| :: keys[j] != []
    ensures exists i: nat :: i < |keys| && Greatest(keys, i)
  {
    if |keys| == 1 {
      assert Greatest(keys, 0);
    } else {
      var n := |keys| - 1;
      GreatestExists(keys[..n]);
      var i: nat :| i < n && Greatest(keys[..n], i);
      assert Greatest(keys, if keys[i][0].count >= keys[n][0].count then i else n);
    }
  }

  lemma AdvanceFalling(keys: seq<File>, out: File, i: nat)
    requires Falling(keys, out) && i < |keys| && Greatest(keys, i)
    ensures Falling(Advance(keys, i), out + [keys[i][0]])
  {
    var f, e := keys[i], keys[i][0];
    assert forall a | 0 <= a < |f[1..]| :: f[1..][a] == f[a + 1];
    assert NonIncreasing(f[1..]);
    assert NonIncreasing(out + [e]);
  }

  /** What has been written and what is left to read make up the files. */
  ghost predicate Kept(files: seq<File>, keys: seq<File>, out: File) {
    forall w, k: Kind :: Tally(k, out, w) + TallyAll(k, keys, w) == TallyAll(k, files, w)
  }

  lemma AdvanceKept(files: seq<File>, keys: seq<File>, out: File, i: nat)
    requires Kept(files, keys, out) && i < |keys| && keys[i] != []
    ensures Kept(files, Advance(keys, i), out + [keys[i][0]])
  {
    hide Tally, TallyAll, Advance;
    var e := keys[i][0];
    forall w, k: Kind
      ensures Tally(k, out + [e], w) + TallyAll(k, Advance(keys, i), w) == TallyAll(k, files, w)
    {
      TallyAppend(k, out, [e], w);
      TallyOne(k, e, w);
      TallyAdvance(k, keys, i, w);
    }
  }

  /** merge: all entries of all count files, by falling count. */
  method Merge(files: seq<File>) returns (out: File)
    requires forall i | 0 <= i < |files| :: NonIncreasing(files[i]) && Positive(files[i])
    ensures NonIncreasing(out) && forall w, k: Kind :: Tally(k, out, w) == TallyAll(k, files, w)
  {
    var keys := OpenAll(files);
    out := [];
    hide Rank, Advance, NonIncreasing, TallyAll;
    assert Falling(keys, out) by { AllFall(keys, files); }
    while keys != []
      invariant Falling(keys, out) && Kept(files, keys, out)
      decreases Rank(keys)
    {
      GreatestExists(keys);
      var i: nat :| i < |keys| && Greatest(keys, i);
      AdvanceFalling(keys, out, i);
      AdvanceKept(files, keys, out, i);
      RankAdvance(keys, i);
      out := out + [keys[i][0]];
      keys := Advance(keys, i);
    }
    forall w, k: Kind
      ensures Tally(k, out, w) == TallyAll(k, files, w)
    {
      NothingLeft(k, w);
    }
  }

  lemma AllFall(keys: seq<File>, files: seq<File>)
    requires forall i | 0 <= i < |files| :: NonIncreasing(files[i])
    requires forall i | 0 <= i < |keys| :: keys[i] != [] && keys[i] in files
    ensures Falling(keys, [])
  {
  }

  lemma NothingLeft(k: Kind, w: Word)
    ensures TallyAll(k, [], w) == 0
  {
  }

  // ----- the result -----

  /** Every word of the input once, with the number of its occurrences, by falling count. */
  ghost predicate Ranking(out: File, texts: seq<Text>) {
    && NonIncreasing(out)
    && (forall w :: Tally(Counts, out, w) == Occurrences(texts, w))
    && (forall w :: Tally(Entries, out, w) == if Occurrences(texts, w) > 0 then 1 else 0)
  }

  /** The whole pipeline, for any input files and any limit on the size of the maps. */
  method SortByFrequency(texts: seq<Text>, limit: nat) returns (out: File)
    ensures Ranking(out, texts)
  {
    hide Tally, TallyAll, IsSegment, Positive, NonIncreasing, Occurrences;
    var segments := Input(texts, limit);
    var files := Combine(segments, limit);
    out := Merge(files);
  }

  /** The version that counts in memory and sorts by count alone, in any order among equal counts. */
  method SortInMemory(words: seq<Word>) returns (out: File)
    ensures Ranking(out, [Text(words, false)])
  {
    var m: map<Word, int> := map[];
    for i := 0 to |words|
      invariant Counted(m, words[..i])
    {
      CountNext(m, words[..i], words[i]);
      assert words[..i + 1] == words[..i] + [words[i]];
      m := m[words[i] := CountOf(m, words[i]) + 1];
    }
    assert words[..|words|] == words;
    out := SortCounts(m);
    InMemoryRanking(out, m, words);
  }

  method SortCounts(m: map<Word, int>) returns (f: File)
    ensures Lists(f, m) && NonIncreasing(f)
  {
    f := [];
    var rest := m;
    hide Tally, AtMost;
    assert ListsPart(f, m, rest) by { EmptyList(m); }
    while rest.Keys != {}
      invariant ListsPart(f, m, rest) && NonIncreasing(f)
      invariant forall i, w | 0 <= i < |f| && w in rest :: f[i].count >= m[w]
      decreases |rest.Keys|
    {
      MaxExists(rest);
      var w :| w in rest && forall v | v in rest :: rest[v] <= rest[w];
      ListsStep(f, m, rest, w);
      f := f + [Entry(w, rest[w])];
      rest := rest - {w};
    }
  }

  lemma MaxExists(m: map<Word, int>)
    requires m.Keys != {}
    ensures exists w :: w in m && forall v | v in m :: m[v] <= m[w]
  {
    GreatestEntry(m);
    var w :| w in m && forall v | v in m :: Above(Entry(w, m[w]), Entry(v, m[v]));
    forall v | v in m
      ensures m[v] <= m[w]
    {
      assert Above(Entry(w, m[w]), Entry(v, m[v]));
    }
  }

  lemma InMemoryRanking(out: File, m: map<Word, int>, words: seq<Word>)
    requires Lists(out, m) && NonIncreasing(out) && Counted(m, words)
    ensures Ranking(out, [Text(words, false)])
  {
    hide Tally;
    var texts := [Text(words, false)];
    forall w
      ensures Occurrences(texts, w) == CountOf(m, w)
    {
      assert texts[..0] == [];
      assert Occurrences([], w) == 0;
    }
  }

  // ----- two rankings of the same words differ only among equal counts -----

  lemma {:induction false} EntryOccurs(f: File, e: Entry)
    requires Tally(Entries, f, e.word) <= 1
    ensures multiset(f)[e] == if Tally(Entries, f, e.word) == 1 && Tally(Counts, f, e.word) == e.count then 1 else 0
  {
    if f != [] {
      assert f == [f[0]] + f[1..];
      EntriesNonNegative(f[1..], e.word);
      EntryOccurs(f[1..], e);
      if f[0].word == e.word {
        NoEntry(f[1..], e.word);
      }
    }
  }

  /** Both have the same entries. */
  lemma SameEntries(a: File, b: File, texts: seq<Text>, texts': seq<Text>)
    requires Ranking(a, texts) && Ranking(b, texts') && forall w :: Occurrences(texts, w) == Occurrences(texts', w)
    ensures multiset(a) == multiset(b)
  {
    hide Tally, Occurrences;
    forall e: Entry
      ensures multiset(a)[e] == multiset(b)[e]
    {
      EntryOccurs(a, e);
      EntryOccurs(b, e);
    }
  }

  /** Files with the same entries, sorted by count, have the same counts at every place. */
  lemma {:induction false} SameCounts(a: File, b: File)
    requires NonIncreasing(a) && NonIncreasing(b) && CountsOf(a) == CountsOf(b)
    ensures |a| == |b| && forall i | 0 <= i < |a| :: a[i].count == b[i].count
  {
    hide CountsOf;
    CountsSize(a);
    CountsSize(b);
    if a != [] {
      var n := |a| - 1;
      CountsLeast(a);
      CountsLeast(b);
      CountsLast(a);
      CountsLast(b);
      assert a[n].count == b[n].count;
      Cancel(CountsOf(a[..n]), CountsOf(b[..n]), multiset{a[n].count});
      SameCounts(a[..n], b[..n]);
      forall i | 0 <= i < |a|
        ensures a[i].count == b[i].count
      {
        if i < n {
          assert a[..n][i].count == b[..n][i].count;
        }
      }
    }
  }

  /** How often each count occurs. */
  ghost function CountsOf(f: File): (m: multiset<int>) {
    if f == [] then multiset{} else CountsOf(f[..|f| - 1]) + multiset{f[|f| - 1].count}
  }

  lemma {:induction false} CountsSize(f: File)
    ensures |CountsOf(f)| == |f|
  {
    if f != [] {
      CountsSize(f[..|f| - 1]);
    }
  }

  lemma {:induction false} CountsIn(f: File, c: int)
    ensures c in CountsOf(f) <==> exists i :: 0 <= i < |f| && f[i].count == c
  {
    if f != [] {
      var n := |f| - 1;
      CountsIn(f[..n], c);
      if exists i :: 0 <= i < |f| && f[i].count == c {
        var i :| 0 <= i < |f| && f[i].count == c;
        if i < n {
          assert f[..n][i].count == c;
        }
      }
    }
  }

  lemma CountsLeast(f: File)
    requires NonIncreasing(f) && f != []
    ensures f[|f| - 1].count in CountsOf(f) && forall c | c in CountsOf(f) :: c >= f[|f| - 1].count
  {
    var n := |f| - 1;
    CountsIn(f, f[n].count);
    forall c | c in CountsOf(f)
      ensures c >= f[n].count
    {
      CountsIn(f, c);
    }
  }

  lemma CountsLast(f: File)
    requires f != []
    ensures CountsOf(f) == CountsOf(f[..|f| - 1]) + multiset{f[|f| - 1].count}
  {
  }

  lemma Cancel<T>(a: multiset<T>, b: multiset<T>, c: multiset<T>)
    requires a + c == b + c
    ensures a == b
  {
    assert a == (a + c) - c && b == (b + c) - c;
  }

  lemma {:induction false} CountsAppend(f: File, g: File)
    ensures CountsOf(f + g) == CountsOf(f) + CountsOf(g)
  {
    if g == [] {
      assert f + g == f;
    } else {
      var n := |g| - 1;
      assert (f + g)[..|f + g| - 1] == f + g[..n];
      CountsAppend(f, g[..n]);
    }
  }

  lemma CountsOne(e: Entry)
    ensures CountsOf([e]) == multiset{e.count}
  {
    assert [e][..0] == [];
  }

  lemma CountsRemove(f: File, k: nat)
    requires k < |f|
    ensures CountsOf(f) == CountsOf(f[..k] + f[k + 1..]) + multiset{f[k].count}
  {
    hide CountsOf;
    var e := f[k];
    assert f == f[..k] + ([e] + f[k + 1..]);
    CountsOne(e);
    CountsAppend(f[..k], [e] + f[k + 1..]);
    CountsAppend([e], f[k + 1..]);
    CountsAppend(f[..k], f[k + 1..]);
  }

  lemma {:induction false} SameMultiset(a: File, b: File)
    requires multiset(a) == multiset(b)
    ensures CountsOf(a) == CountsOf(b)
  {
    if a == [] {
      assert |b| == |multiset(b)| == 0;
    } else {
      var n := |a| - 1;
      var e := a[n];
      assert a == a[..n] + [e];
      assert e in multiset(b);
      var k :| 0 <= k < |b| && b[k] == e;
      assert b == b[..k] + ([e] + b[k + 1..]);
      Cancel(multiset(a[..n]), multiset(b[..k] + b[k + 1..]), multiset{e});
      SameMultiset(a[..n], b[..k] + b[k + 1..]);
      CountsRemove(b, k);
    }
  }

  /** The pipeline's result, the in-memory result and any other ranking of the same words have the same
      entries, and the same counts at every place: they differ only in the order of words that occur
      equally often. */
  lemma RankingsAgree(a: File, b: File, texts: seq<Text>, texts': seq<Text>)
    requires Ranking(a, texts) && Ranking(b, texts') && forall w :: Occurrences(texts, w) == Occurrences(texts', w)
    ensures multiset(a) == multiset(b)
    ensures |a| == |b| && forall i | 0 <= i < |a| :: a[i].count == b[i].count
  {
    hide Tally, Occurrences, CountsOf;
    SameEntries(a, b, texts, texts');
    SameMultiset(a, b);
    SameCounts(a, b);
  }
}
