/** The server's statistics: requests and latencies per second over a sliding window of a minute. */
module SudokuStat {

  const SECONDS: nat := 60

  /** One call of recordResponse. */
  datatype Response = Response(second: int, elapsed: int, solved: bool)

  type History = seq<Response>

  /** The responses of second s whose latency is not negative. */
  ghost function CountOf(h: History, s: int): (n: nat) {
    if h == [] then 0
    else CountOf(h[..|h| - 1], s) + (if h[|h| - 1].elapsed >= 0 && h[|h| - 1].second == s then 1 else 0)
  }

  /** The sum of their latencies. */
  ghost function LatencyOf(h: History, s: int): (n: nat) {
    if h == [] then 0
    else LatencyOf(h[..|h| - 1], s)
         + (if h[|h| - 1].elapsed >= 0 && h[|h| - 1].second == s then h[|h| - 1].elapsed else 0)
  }

  datatype Totals = Totals(responses: int, solved: int, badLatency: int, latency: int)

  ghost function TotalsOf(h: History): (t: Totals) {
    if h == [] then Totals(0, 0, 0, 0)
    else
      var t, r := TotalsOf(h[..|h| - 1]), h[|h| - 1];
      Totals(t.responses + 1, if r.solved then t.solved + 1 else t.solved,
             if r.elapsed < 0 then t.badLatency + 1 else t.badLatency,
             if r.elapsed < 0 then t.latency else t.latency + r.elapsed)
  }

  lemma CountAppend(h: History, r: Response, s: int)
    ensures CountOf(h + [r], s) == CountOf(h, s) + (if r.elapsed >= 0 && r.second == s then 1 else 0)
    ensures LatencyOf(h + [r], s) == LatencyOf(h, s) + (if r.elapsed >= 0 && r.second == s then r.elapsed else 0)
  {
    assert (h + [r])[..|h|] == h;
  }

  lemma TotalsAppend(h: History, r: Response)
    ensures TotalsOf(h + [r]).responses == TotalsOf(h).responses + 1
    ensures TotalsOf(h + [r]).solved == TotalsOf(h).solved + (if r.solved then 1 else 0)
    ensures TotalsOf(h + [r]).badLatency == TotalsOf(h).badLatency + (if r.elapsed < 0 then 1 else 0)
    ensures TotalsOf(h + [r]).latency == TotalsOf(h).latency + (if r.elapsed < 0 then 0 else r.elapsed)
  {
    assert (h + [r])[..|h|] == h;
  }

  /** The responses with a latency that is not negative, from second a to before second b. */
  ghost function CountIn(h: History, a: int, b: int): (n: nat) {
    if h == [] then 0
    else CountIn(h[..|h| - 1], a, b) + (if h[|h| - 1].elapsed >= 0 && a <= h[|h| - 1].second < b then 1 else 0)
  }

  ghost function LatencyIn(h: History, a: int, b: int): (n: nat) {
    if h == [] then 0
    else LatencyIn(h[..|h| - 1], a, b)
         + (if h[|h| - 1].elapsed >= 0 && a <= h[|h| - 1].second < b then h[|h| - 1].elapsed else 0)
  }

  lemma {:induction false} EmptyRange(h: History, a: int)
    ensures CountIn(h, a, a) == 0 && LatencyIn(h, a, a) == 0
  {
    if h != [] {
      EmptyRange(h[..|h| - 1], a);
    }
  }

  lemma {:induction false} OneMoreSecond(h: History, a: int, b: int)
    requires a <= b
    ensures CountIn(h, a, b + 1) == CountIn(h, a, b) + CountOf(h, b)
    ensures LatencyIn(h, a, b + 1) == LatencyIn(h, a, b) + LatencyOf(h, b)
  {
    if h != [] {
      OneMoreSecond(h[..|h| - 1], a, b);
    }
  }

  /** No response is later than last. */
  ghost predicate NoneAfter(h: History, last: int) {
    forall i | 0 <= i < |h| && h[i].elapsed >= 0 :: h[i].second <= last
  }

  lemma {:induction false} CountAfterLast(h: History, last: int, s: int)
    requires NoneAfter(h, last) && s > last
    ensures CountOf(h, s) == 0 && LatencyOf(h, s) == 0
  {
    if h != [] {
      var n := |h| - 1;
      assert h[n].elapsed >= 0 ==> h[n].second <= last;
      CountAfterLast(h[..n], last, s);
    }
  }

  /** Slot i of the window is for second first + i. */
  ghost predicate Slot(h: History, requests: seq<int>, latencies: seq<int>, first: int, i: nat)
    requires i < |requests| == |latencies|
  {
    requests[i] == CountOf(h, first + i) && latencies[i] == LatencyOf(h, first + i)
  }

  /** push_back on a circular buffer: a full one drops its front. */
  function PushBack(s: seq<int>, x: int): (t: seq<int>)
    requires |s| <= SECONDS
    ensures 0 < |t| <= SECONDS && t[|t| - 1] == x
  {
    if |s| < SECONDS then s + [x] else s[1..] + [x]
  }

  function Max(a: int, b: int): (m: int)
    ensures m >= a && m >= b && (m == a || m == b)
  {
    if a >= b then a else b
  }

  /** Where the window begins after a response of the given second: it keeps the seconds it has as long
      as they are within a minute of the last one, and starts again after a longer pause. */
  function FirstAfter(first: int, last: int, second: int): (f: int) {
    if second <= last then first
    else if last == 0 || second >= last + SECONDS then second
    else Max(first, second - SECONDS + 1)
  }

  predicate InWindow(first: int, last: int, s: int) { first <= s <= last }

  /** The seconds in the window: the latest one; those that were in it and are less than a minute ago; and,
      unless a minute has passed, those since then. */
  lemma WindowAfter(first: int, last: int, second: int, s: int)
    requires last >= 0 && (last == 0 ==> first == 1) && (last > 0 ==> first <= last) && last - first < 60 && second > 0
    ensures var f, l := FirstAfter(first, last, second), Max(last, second);
            InWindow(f, l, s)
            <==> || s == l
                 || (s < l < s + 60 && (InWindow(first, last, s) || (0 < last < s && l < last + 60)))
  {
  }

  class Stat {
    var lastSecond: int
    var requests: seq<int>
    var latencies: seq<int>
    var totalRequests: int
    var totalResponses: int
    var totalSolved: int
    var badRequests: int
    var droppedRequests: int
    var totalLatency: int
    var badLatency: int
    /** Everything recorded since the last reset. */
    ghost var history: History

    ghost function FirstSecond(): (s: int)
      reads `lastSecond, `requests
    {
      lastSecond - |requests| + 1
    }

    /** The window agrees with the history. */
    ghost predicate Window()
      reads `lastSecond, `requests, `latencies, `history
    {
      && |requests| == |latencies| <= SECONDS
      && lastSecond >= 0 && (lastSecond == 0 <==> requests == [])
      && NoneAfter(history, lastSecond)
      && forall i: nat | i < |requests| :: Slot(history, requests, latencies, FirstSecond(), i)
    }

    ghost predicate Valid()
      reads this
    {
      Window() && Totals(totalResponses, totalSolved, badLatency, totalLatency) == TotalsOf(history)
    }

    constructor ()
      ensures Valid() && history == [] && totalRequests == badRequests == droppedRequests == 0
    {
      lastSecond, requests, latencies := 0, [], [];
      totalRequests, totalResponses, totalSolved, badRequests := 0, 0, 0, 0;
      droppedRequests, totalLatency, badLatency := 0, 0, 0;
      history := [];
    }

    /** reset forgets everything except the number of dropped requests. */
    method Reset()
      modifies this
      ensures Valid() && history == [] && totalRequests == badRequests == 0
      ensures droppedRequests == old(droppedRequests)
    {
      lastSecond, requests, latencies := 0, [], [];
      totalRequests, totalResponses, totalSolved, badRequests := 0, 0, 0, 0;
      totalLatency, badLatency := 0, 0;
      history := [];
    }

    /** An empty slot for the next second. */
    method Advance()
      requires Window() && lastSecond > 0
      modifies `lastSecond, `requests, `latencies
      ensures Window() && lastSecond == old(lastSecond) + 1
      ensures FirstSecond() == Max(old(FirstSecond()), lastSecond - SECONDS + 1)
    {
      CountAfterLast(history, lastSecond, lastSecond + 1);
      ghost var r, l, first := requests, latencies, FirstSecond();
      requests := PushBack(requests, 0);
      latencies := PushBack(latencies, 0);
      lastSecond := lastSecond + 1;
      ghost var d := FirstSecond() - first;
      forall i: nat | i < |requests|
        ensures Slot(history, requests, latencies, FirstSecond(), i)
      {
        if i < |requests| - 1 {
          assert Slot(history, r, l, first, i + d);
        }
      }
    }

    /** An empty slot for a second after all others, and nothing else. */
    method Restart(second: int)
      requires Window() && second > lastSecond
      modifies `lastSecond, `requests, `latencies
      ensures Window() && lastSecond == FirstSecond() == second
    {
      CountAfterLast(history, lastSecond, second);
      requests, latencies := [], [];
      lastSecond := second;
      requests := PushBack(requests, 0);
      latencies := PushBack(latencies, 0);
    }

    /** Adds a response to its slot. */
    method AddTo(idx: nat, r: Response)
      requires Window() && idx < |requests| && r.elapsed >= 0 && r.second == FirstSecond() + idx
      modifies `requests, `latencies, `history
      ensures Window() && history == old(history) + [r] && |requests| == old(|requests|)
    {
      ghost var h, first := history, FirstSecond();
      hide CountOf, LatencyOf;
      requests := requests[idx := requests[idx] + 1];
      latencies := latencies[idx := latencies[idx] + r.elapsed];
      history := history + [r];
      forall i: nat | i < |requests|
        ensures Slot(history, requests, latencies, first, i)
      {
        CountAppend(h, r, first + i);
        assert Slot(h, old(requests), old(latencies), first, i);
      }
    }

    /** A response that belongs to no slot changes none. */
    ghost method PassBy(r: Response)
      requires Window() && (r.elapsed >= 0 ==> r.second < FirstSecond() && r.second <= lastSecond)
      modifies `history
      ensures Window() && history == old(history) + [r]
    {
      ghost var h := history;
      hide CountOf, LatencyOf;
      history := history + [r];
      forall i: nat | i < |requests|
        ensures Slot(history, requests, latencies, FirstSecond(), i)
      {
        CountAppend(h, r, FirstSecond() + i);
        assert Slot(h, requests, latencies, FirstSecond(), i);
      }
    }

    /** The part of recordResponse that deals with the window. */
    method Place(r: Response)
      requires Window() && r.second > 0 && r.elapsed >= 0
      modifies `lastSecond, `requests, `latencies, `history
      ensures Window() && history == old(history) + [r]
      ensures FirstSecond() >= old(FirstSecond()) && lastSecond == Max(old(lastSecond), r.second)
      ensures FirstSecond() == FirstAfter(old(FirstSecond()), old(lastSecond), r.second)
    {
      hide Slot, NoneAfter;
      var second := r.second;
      var firstSecond := lastSecond - |requests| + 1;
      if lastSecond == second {
        AddTo(|requests| - 1, r);
      } else if lastSecond == 0 {
        Restart(second);  // the buffers are empty
        AddTo(|requests| - 1, r);
      } else if lastSecond + 1 == second {
        Advance();
        AddTo(|requests| - 1, r);
      } else if second > lastSecond {
        if second < lastSecond + SECONDS {
          while lastSecond < second
            invariant Window() && old(lastSecond) <= lastSecond <= second && lastSecond > 0
            invariant FirstSecond() == Max(old(FirstSecond()), lastSecond - SECONDS + 1) && history == old(history)
          {
            Advance();
          }
        } else {
          Restart(second);
        }
        AddTo(|requests| - 1, r);
      } else if second >= firstSecond {
        AddTo(second - firstSecond, r);
      } else {
        PassBy(r);
      }
    }

    lemma WindowBounds()
      requires Window()
      ensures lastSecond >= 0 && (lastSecond == 0 ==> FirstSecond() == 1)
      ensures (lastSecond > 0 ==> FirstSecond() <= lastSecond) && lastSecond - FirstSecond() < 60
    {
      hide Slot, NoneAfter;
    }

    /** recordResponse, now and receive in microseconds: whatever the order of the seconds, every slot
        of the window holds all responses of its second.  The window is exactly given: it ends with the
        latest second, and reaches back as far as it did, at most a minute. */
    method RecordResponse(now: int, receive: int, solved: bool)
      requires Valid() && now >= 1_000_000
      modifies this
      ensures Valid() && history == old(history) + [Response(now / 1_000_000, now - receive, solved)]
      ensures lastSecond >= old(lastSecond) && FirstSecond() >= old(FirstSecond())
      ensures now < receive ==> lastSecond == old(lastSecond) && FirstSecond() == old(FirstSecond())
      ensures now >= receive ==>
                && lastSecond == Max(old(lastSecond), now / 1_000_000)
                && FirstSecond() == FirstAfter(old(FirstSecond()), old(lastSecond), now / 1_000_000)
      ensures now >= receive ==> forall s {:trigger InWindow(FirstSecond(), lastSecond, s)} ::
                InWindow(FirstSecond(), lastSecond, s)
                <==> || s == lastSecond
                     || (s < lastSecond < s + 60
                         && (InWindow(old(FirstSecond()), old(lastSecond), s)
                             || (0 < old(lastSecond) < s && lastSecond < old(lastSecond) + 60)))
      ensures totalRequests == old(totalRequests) && badRequests == old(badRequests)
      ensures droppedRequests == old(droppedRequests)
    {
      hide Stat.Window, TotalsOf, FirstAfter, InWindow;
      var second := now / 1_000_000;
      var elapsed := now - receive;
      var r := Response(second, elapsed, solved);
      TotalsAppend(history, r);
      totalResponses := totalResponses + 1;
      if solved {
        totalSolved := totalSolved + 1;
      }
      if elapsed < 0 {
        badLatency := badLatency + 1;
        PassBy(r);
        return;
      }
      totalLatency := totalLatency + elapsed;
      ghost var first, last := FirstSecond(), lastSecond;
      WindowBounds();
      Place(r);
      forall s: int
        ensures InWindow(FirstSecond(), lastSecond, s)
                <==> || s == lastSecond
                     || (s < lastSecond < s + 60
                         && (InWindow(first, last, s) || (0 < last < s && lastSecond < last + 60)))
      {
        WindowAfter(first, last, second, s);
      }
    }

    /** The sums that report prints for the window: the responses of its seconds and their latencies. */
    method Report() returns (requests60: int, latency60: int, average: int)
      requires Valid()
      ensures requests60 == CountIn(history, FirstSecond(), lastSecond + 1)
      ensures latency60 == LatencyIn(history, FirstSecond(), lastSecond + 1)
      ensures average == if requests60 == 0 then 0 else latency60 / requests60
    {
      hide CountOf, LatencyOf;
      requests60, latency60 := 0, 0;
      EmptyRange(history, FirstSecond());
      for i := 0 to |requests|
        invariant requests60 == CountIn(history, FirstSecond(), FirstSecond() + i)
        invariant latency60 == LatencyIn(history, FirstSecond(), FirstSecond() + i)
      {
        assert Slot(history, requests, latencies, FirstSecond(), i);
        OneMoreSecond(history, FirstSecond(), FirstSecond() + i);
        requests60 := requests60 + requests[i];
        latency60 := latency60 + latencies[i];
      }
      average := if requests60 == 0 then 0 else latency60 / requests60;
    }
  }
}
