/** The echo server's session: it reads into one of its two buffers while it writes the other back.
    Its handlers run one at a time on a strand; in between, the outstanding operations go on by
    themselves.  A run is any interleaving of handlers with what the operations do. */
module EchoSession {

  /** An asynchronous operation: none is outstanding, it is going on, or it is finished and its
      handler has not run yet. */
  datatype Operation = Idle | Going | Finished(error: bool)

  function Outstanding(op: Operation): (n: nat) { if op.Idle? then 0 else 1 }

  /** Every byte received has been written, is on its way out, or is held back, in this order. */
  ghost predicate Conserved(received: seq<char>, written: seq<char>, toSend: seq<char>, held: seq<char>) {
    received == written + toSend + held
  }

  ghost predicate Echoes(received: seq<char>, written: seq<char>) { written <= received }

  lemma SendSplit(w: seq<char>, a: nat, b: nat, c: nat, received: seq<char>, written: seq<char>, held: seq<char>)
    requires a <= b <= c <= |w| && Conserved(received, written, w[a..c], held)
    ensures Conserved(received, written + w[a..b], w[b..c], held) && Echoes(received, written + w[a..b])
  {
    assert w[a..c] == w[a..b] + w[b..c];
    assert received == (written + w[a..b]) + (w[b..c] + held);
  }

  // ----- the course of a session, without its data -----

  /** What may happen next: a step of an operation, or a handler. */
  datatype Event =
    | Scribbles(i: nat, c: char)
    | Delivers(data: seq<char>)
    | ReadFails
    | Sends(k: nat)
    | WriteDone
    | WriteFails
    | ReadHandler
    | WriteHandler

  /** The operations, the counts, and how often destroy has been posted. */
  datatype View = View(reading: Operation, readResult: nat, writing: Operation, writeLength: nat, sent: nat,
                       readLength: nat, unsent: int, posted: nat)

  /** destroy is posted when nothing is outstanding. */
  function Settled(v: View): (w: View) {
    if v.reading.Idle? && v.writing.Idle? then v.(posted := v.posted + 1) else v
  }

  /** A block of the given length goes out, and the next one is read. */
  function Swapped(v: View, length: nat): (w: View) {
    v.(reading := Going, writing := Going, writeLength := length, sent := 0, unsent := 1)
  }

  /** start */
  function Started(error: bool): (v: View) {
    if error then View(Idle, 0, Idle, 0, 0, 0, 0, 1) else View(Going, 0, Idle, 0, 0, 0, 0, 0)
  }

  /** handle_read */
  function ReadHandled(v: View): (w: View)
    requires v.reading.Finished?
  {
    if v.reading.error then Settled(v.(reading := Idle))
    else if v.unsent == 0 then Swapped(v.(readLength := v.readResult), v.readResult)
    else Settled(v.(reading := Idle, readLength := v.readResult, unsent := v.unsent + 1))
  }

  /** handle_write */
  function WriteHandled(v: View): (w: View)
    requires v.writing.Finished?
  {
    if v.writing.error then Settled(v.(writing := Idle))
    else if v.unsent == 2 then Swapped(v, v.readLength)
    else Settled(v.(writing := Idle, unsent := v.unsent - 1))
  }

  /** What can happen to a session with buffers of the given size. */
  predicate Possible(size: nat, v: View, e: Event) {
    match e
    case Scribbles(i, c) => v.reading.Going? && i < size
    case Delivers(data) => v.reading.Going? && |data| <= size
    case ReadFails => v.reading.Going?
    case Sends(k) => v.writing.Going? && v.sent + k <= v.writeLength
    case WriteDone => v.writing.Going? && v.sent == v.writeLength
    case WriteFails => v.writing.Going?
    case ReadHandler => v.reading.Finished?
    case WriteHandler => v.writing.Finished?
  }

  function Next(size: nat, v: View, e: Event): (w: View)
    requires Possible(size, v, e)
  {
    match e
    case Scribbles(i, c) => v
    case Delivers(data) => v.(reading := Finished(false), readResult := |data|)
    case ReadFails => v.(reading := Finished(true))
    case Sends(k) => v.(sent := v.sent + k)
    case WriteDone => v.(writing := Finished(false))
    case WriteFails => v.(writing := Finished(true))
    case ReadHandler => ReadHandled(v)
    case WriteHandler => WriteHandled(v)
  }

  /** The events of the run are possible one after the other, starting from v. */
  predicate Runs(size: nat, v: View, run: seq<Event>)
    decreases |run|, 0
  {
    run == [] || (var n := |run| - 1; Runs(size, v, run[..n]) && Possible(size, After(size, v, run[..n]), run[n]))
  }

  function After(size: nat, v: View, run: seq<Event>): (w: View)
    requires Runs(size, v, run)
    decreases |run|, 1
  {
    if run == [] then v else Next(size, After(size, v, run[..|run| - 1]), run[|run| - 1])
  }

  lemma OneMore(size: nat, v: View, run: seq<Event>, e: Event)
    requires Runs(size, v, run) && Possible(size, After(size, v, run), e)
    ensures Runs(size, v, run + [e]) && After(size, v, run + [e]) == Next(size, After(size, v, run), e)
  {
    hide Next, Possible;
    assert (run + [e])[..|run|] == run;
  }

  /** How many of the events are of the kind that k says. */
  datatype Kind = ReadEnds | ReadHandlers | WriteEnds | WriteHandlers

  predicate IsKind(k: Kind, e: Event) {
    match k
    case ReadEnds => e.Delivers? || e.ReadFails?
    case ReadHandlers => e.ReadHandler?
    case WriteEnds => e.WriteDone? || e.WriteFails?
    case WriteHandlers => e.WriteHandler?
  }

  function Count(k: Kind, run: seq<Event>): (n: nat) {
    if run == [] then 0 else Count(k, run[..|run| - 1]) + if IsKind(k, run[|run| - 1]) then 1 else 0
  }

  /** Every operation that ends has its handler run once, unless that is still to come. */
  lemma {:induction false} HandlersFollow(size: nat, error: bool, run: seq<Event>)
    requires Runs(size, Started(error), run)
    ensures var v := After(size, Started(error), run);
            && Count(ReadEnds, run) == Count(ReadHandlers, run) + (if v.reading.Finished? then 1 else 0)
            && Count(WriteEnds, run) == Count(WriteHandlers, run) + (if v.writing.Finished? then 1 else 0)
            && (!v.reading.Idle? ==> v.unsent <= 1) && (!v.writing.Idle? ==> v.unsent >= 1)
    decreases |run|
  {
    if run != [] {
      HandlersFollow(size, error, run[..|run| - 1]);
    }
  }

  class Session {
    const blockSize: nat
    var readData: array<char>
    var writeData: array<char>
    var readLength: nat
    var unsentCount: int
    var opCount: int
    /** How often destroy has been posted. */
    var posted: nat

    // the operations
    var reading: Operation
    var readInto: array<char>
    var readResult: nat
    var writing: Operation
    var writeFrom: array<char>
    var writeLength: nat
    var sent: nat

    /** All bytes received from and written to the peer. */
    ghost var received: seq<char>
    ghost var written: seq<char>
    ghost var writeFailed: bool
    /** A read has failed, or none was ever started. */
    ghost var readFailed: bool

    /** What every step keeps, whatever went wrong before. */
    ghost predicate Counted()
      reads this
    {
      && readData.Length == blockSize && writeData.Length == blockSize && readData != writeData
      && readLength <= blockSize
      && opCount == Outstanding(reading) + Outstanding(writing)
      && (!reading.Idle? ==> readInto == readData && unsentCount <= 1)
      && (!writing.Idle? ==> writeFrom == writeData && unsentCount >= 1 && sent <= writeLength <= blockSize)
      && (reading == Finished(false) ==> readResult <= blockSize)
      && (writing == Finished(false) ==> sent == writeLength)
      && (writing.Idle? && !writeFailed ==> unsentCount == 0)
      && (writing.Going? || writing == Finished(false) ==> !writeFailed)
      && (writing == Finished(true) ==> writeFailed)
      && (writeFailed ==> unsentCount >= 1)
      && (reading == Finished(true) ==> readFailed)
      && (reading.Idle? && !readFailed && !writeFailed ==> unsentCount == 2)
      && 0 <= unsentCount <= 2
      && posted == (if opCount == 0 then 1 else 0)
    }

    /** The bytes of the current write that have not gone out yet. */
    ghost function ToSend(): (s: seq<char>)
      requires Counted()
      reads this, writeData
    {
      if writing.Idle? then [] else writeData[sent..writeLength]
    }

    /** A block that has been read but not yet handed to a write. */
    ghost function Held(): (s: seq<char>)
      requires Counted()
      reads this, readData
    {
      if reading == Finished(false) then readData[..readResult]
      else if unsentCount == 2 then readData[..readLength]
      else []
    }

    /** Until a write fails every byte received has been written or waits in a buffer, in order. */
    ghost predicate Valid()
      reads this, readData, writeData
    {
      && Counted()
      && Echoes(received, written)
      && (!writeFailed ==> Conserved(received, written, ToSend(), Held()))
    }

    ghost function Now(): (v: View)
      reads this
    {
      View(reading, readResult, writing, writeLength, sent, readLength, unsentCount, posted)
    }

    constructor (size: nat)
      ensures blockSize == size && New() && fresh(readData) && fresh(writeData)
    {
      var one, other := new char[size], new char[size];
      blockSize, readData, writeData := size, one, other;
      readLength, unsentCount, opCount, posted := 0, 0, 0, 0;
      reading, readInto, readResult := Idle, one, 0;
      writing, writeFrom, writeLength, sent := Idle, other, 0, 0;
      received, written, writeFailed, readFailed := [], [], false, false;
    }

    ghost predicate New()
      reads this
    {
      && readData.Length == blockSize && writeData.Length == blockSize && readData != writeData && readLength == 0
      && unsentCount == 0 && opCount == 0 && posted == 0 && reading.Idle? && writing.Idle?
      && received == [] && written == [] && !writeFailed && !readFailed
      && readResult == 0 && writeLength == 0 && sent == 0
    }

    /** start; error says that setting the socket option failed. */
    method Start(error: bool)
      requires New()
      modifies this
      ensures Valid() && readData == old(readData) && writeData == old(writeData) && received == written == [] && !writeFailed
      ensures !error ==> reading.Going? && readInto == readData && opCount == 1 && posted == 0 && !readFailed
      ensures error ==> reading.Idle? && writing.Idle? && opCount == 0 && posted == 1
      ensures Now() == Started(error)
    {
      if !error {
        opCount := opCount + 1;
        reading, readInto := Going, readData;
      } else {
        readFailed := true;
        posted := posted + 1;
      }
    }

    // ----- what the operations do by themselves -----

    /** A read may change its buffer at any time. */
    method Scribble(i: nat, c: char)
      requires Valid() && reading.Going? && i < blockSize
      modifies readInto
      ensures Valid()
    {
      readInto[i] := c;
    }

    /** A read succeeds. */
    method Deliver(data: seq<char>)
      requires Valid() && reading.Going? && |data| <= blockSize
      modifies `reading, `readResult, `received, readInto
      ensures Valid() && received == old(received) + data && reading == Finished(false) && readResult == |data|
    {
      ghost var w := writeData[..];
      for i := 0 to |data|
        invariant readInto[..i] == data[..i] && writeData[..] == w
        invariant Valid() && reading.Going? && received == old(received) && written == old(written)
        invariant readInto == old(readInto) && readData == old(readData) && writeData == old(writeData)
        invariant unsentCount == old(unsentCount)
        modifies readInto
      {
        readInto[i] := data[i];
      }
      assert readInto[..|data|] == data;
      reading, readResult := Finished(false), |data|;
      received := received + data;
    }

    method FailRead()
      requires Valid() && reading.Going?
      modifies `reading, `readFailed
      ensures Valid() && readFailed && reading == Finished(true)
    {
      readFailed := true;
      reading := Finished(true);
    }

    /** Some more bytes go out, taken from the buffer as it is now. */
    method Send(k: nat)
      requires Valid() && writing.Going? && sent + k <= writeLength
      modifies `sent, `written
      ensures Valid() && written == old(written) + writeData[old(sent)..old(sent) + k]
      ensures |written| == old(|written|) + k && sent == old(sent) + k
    {
      hide Conserved, Echoes;
      ghost var w, a, b, held := writeData[..], sent, sent + k, Held();
      assert ToSend() == w[a..writeLength] && writeFrom[a..b] == w[a..b];
      SendSplit(w, a, b, writeLength, received, written, held);
      written := written + writeFrom[sent..sent + k];
      sent := sent + k;
      assert ToSend() == w[b..writeLength] && Held() == held;
    }

    method FinishWrite()
      requires Valid() && writing.Going? && sent == writeLength
      modifies `writing
      ensures Valid() && writing == Finished(false)
    {
      writing := Finished(false);
    }

    method FailWrite()
      requires Valid() && writing.Going?
      modifies `writing, `writeFailed
      ensures Valid() && writeFailed && writing == Finished(true)
    {
      writing, writeFailed := Finished(true), true;
    }

    // ----- the handlers -----

    /** The block of the given length is being written from its buffer, and the other buffer read into. */
    ghost predicate Exchanged(block: array<char>, length: nat)
      reads this
    {
      writing.Going? && writeFrom == block && writeLength == length && sent == 0 && reading.Going?
    }

    /** Both handlers go on like this when there is a block to write: the buffers change places, one is
        written and the other read into. */
    method Exchange()
      requires readData.Length == writeData.Length == blockSize && readData != writeData && readLength <= blockSize
      requires reading.Idle? && writing.Idle?
      modifies `opCount, `readData, `writeData, `reading, `readInto, `writing, `writeFrom, `writeLength, `sent
      ensures readData == old(writeData) && writeData == old(readData)
      ensures opCount == old(opCount) + 2 && reading.Going? && writing.Going?
      ensures readInto == readData && writeFrom == writeData && writeLength == readLength && sent == 0
    {
      opCount := opCount + 2;
      readData, writeData := writeData, readData;
      writing, writeFrom, writeLength, sent := Going, writeData, readLength, 0;
      reading, readInto := Going, readData;
    }

    /** handle_read */
    method HandleRead()
      requires Valid() && reading.Finished?
      modifies `reading, `opCount, `readLength, `unsentCount, `posted, `readData, `writeData, `readInto, `writing, `writeFrom,
               `writeLength, `sent
      ensures Valid() && {readData, writeData} == old({readData, writeData})
      ensures old(reading.error) ==> reading.Idle? && writing == old(writing) && unsentCount == old(unsentCount)
      ensures !old(reading.error) ==> unsentCount == old(unsentCount) + 1 && readLength == old(readResult)
      ensures !old(reading.error) && old(unsentCount) == 0 ==> Exchanged(old(readData), old(readResult))
      ensures !old(reading.error) && old(unsentCount) > 0 ==> reading.Idle? && writing == old(writing)
      ensures Now() == ReadHandled(old(Now())) && !reading.Finished?
    {
      var error, length := reading.error, readResult;
      reading := Idle;
      opCount := opCount - 1;
      if !error {
        readLength := length;
        unsentCount := unsentCount + 1;
        if unsentCount == 1 {
          Exchange();
        }
      }
      if opCount == 0 {
        posted := posted + 1;
      }
    }

    /** handle_write */
    method HandleWrite()
      requires Valid() && writing.Finished?
      modifies `reading, `opCount, `readLength, `unsentCount, `posted, `readData, `writeData, `readInto, `writing, `writeFrom,
               `writeLength, `sent
      ensures Valid() && {readData, writeData} == old({readData, writeData})
      ensures old(writing.error) ==> writing.Idle? && reading == old(reading) && unsentCount == old(unsentCount)
      ensures !old(writing.error) ==> unsentCount == old(unsentCount) - 1
      ensures !old(writing.error) && old(unsentCount) == 2 ==> Exchanged(old(readData), old(readLength))
      ensures !old(writing.error) && old(unsentCount) != 2 ==> writing.Idle? && reading == old(reading)
      ensures Now() == WriteHandled(old(Now())) && !writing.Finished?
    {
      var error := writing.error;
      writing := Idle;
      opCount := opCount - 1;
      if !error {
        unsentCount := unsentCount - 1;
        if unsentCount == 1 {
          Exchange();
        }
      }
      if opCount == 0 {
        posted := posted + 1;
      }
    }
  }

  // ----- runs -----

  lemma ReadsInto(s: Session)
    requires s.Valid() && !s.reading.Idle?
    ensures s.readInto == s.readData
  {
  }

  /** One event: what it does to the course of the session, to the bytes, and what the handlers start. */
  method Happen(s: Session, e: Event)
    requires s.Valid() && Possible(s.blockSize, s.Now(), e)
    modifies s, s.readData, s.writeData
    ensures s.Valid() && {s.readData, s.writeData} == old({s.readData, s.writeData})
    ensures s.Now() == Next(s.blockSize, old(s.Now()), e)
    ensures e.ReadHandler? ==> !s.reading.Finished?
    ensures e.ReadHandler? && old(s.reading) == Finished(false) && old(s.unsentCount) == 0
            ==> s.Exchanged(old(s.readData), old(s.readResult))
    ensures e.WriteHandler? ==> !s.writing.Finished?
    ensures e.WriteHandler? && old(s.writing) == Finished(false) && old(s.unsentCount) == 2
            ==> s.Exchanged(old(s.readData), old(s.readLength))
    ensures s.received == old(s.received) + (if e.Delivers? then e.data else [])
    ensures old(s.written) <= s.written && |s.written| == old(|s.written|) + (if e.Sends? then e.k else 0)
    ensures s.readFailed <==> old(s.readFailed) || e.ReadFails?
    ensures s.writeFailed <==> old(s.writeFailed) || e.WriteFails?
  {
    hide Session.Valid, Session.Counted, ReadHandled, WriteHandled;
    if !s.reading.Idle? {
      ReadsInto(s);
    }
    match e
    case Scribbles(i, c) => s.Scribble(i, c);
    case Delivers(data) => s.Deliver(data);
    case ReadFails => s.FailRead();
    case Sends(k) => s.Send(k);
    case WriteDone => s.FinishWrite();
    case WriteFails => s.FailWrite();
    case ReadHandler => s.HandleRead();
    case WriteHandler => s.HandleWrite();
  }

  /** The data of all reads in a run, and how many bytes its writes sent. */
  function DataOf(run: seq<Event>): (data: seq<char>) {
    if run == [] then []
    else
      var e := run[|run| - 1];
      DataOf(run[..|run| - 1]) + if e.Delivers? then e.data else []
  }

  function SentBy(run: seq<Event>): (k: nat) {
    if run == [] then 0
    else
      var e := run[|run| - 1];
      SentBy(run[..|run| - 1]) + if e.Sends? then e.k else 0
  }

  lemma NextEvent(run: seq<Event>, n: nat)
    requires n < |run|
    ensures run[..n + 1] == run[..n] + [run[n]]
    ensures DataOf(run[..n + 1]) == DataOf(run[..n]) + if run[n].Delivers? then run[n].data else []
    ensures SentBy(run[..n + 1]) == SentBy(run[..n]) + if run[n].Sends? then run[n].k else 0
  {
    assert run[..n + 1][..n] == run[..n];
  }

  /** Every run, with errors at any point; it goes on for done events, up to one that is not possible.
      The session has received the data of its reads and written as much of that, from the beginning,
      as its writes sent.  The operation count is the number of outstanding operations, and a buffer is
      never read into while it is written out.  destroy is posted exactly once, when nothing is
      outstanding any more, and never as long as nothing has failed. */
  method Run(size: nat, error: bool, run: seq<Event>) returns (s: Session, done: nat)
    ensures fresh(s) && fresh(s.readData) && fresh(s.writeData) && s.Valid() && s.blockSize == size
    ensures done <= |run| && Runs(size, Started(error), run[..done])
    ensures done < |run| ==> !Possible(size, After(size, Started(error), run[..done]), run[done])
    ensures s.Now() == After(size, Started(error), run[..done])
    ensures Count(ReadEnds, run[..done]) == Count(ReadHandlers, run[..done]) + (if s.reading.Finished? then 1 else 0)
    ensures Count(WriteEnds, run[..done]) == Count(WriteHandlers, run[..done]) + (if s.writing.Finished? then 1 else 0)
    ensures s.received == DataOf(run[..done])
    ensures SentBy(run[..done]) <= |s.received| && s.written == s.received[..SentBy(run[..done])]
    ensures s.opCount == Outstanding(s.reading) + Outstanding(s.writing)
    ensures s.reading.Going? && s.writing.Going? ==> s.readInto != s.writeFrom
    ensures s.posted <= 1 && (s.posted == 1 <==> s.reading.Idle? && s.writing.Idle?)
    ensures !error && ReadFails !in run[..done] && WriteFails !in run[..done] ==> s.posted == 0
    ensures WriteFails !in run[..done] && s.writing.Idle? && s.reading != Finished(false) ==> s.written == s.received
  {
    hide Session.Valid, Session.Counted, Session.New, DataOf, SentBy, Possible, Next, Runs, After, Count, Outstanding;
    s := new Session(size);
    s.Start(error);
    done := 0;
    NoEvents(run, size, Started(error));
    while done < |run| && Possible(size, ViewOf(s), run[done])
      invariant fresh(s) && fresh(s.readData) && fresh(s.writeData) && s.Valid() && s.blockSize == size && done <= |run|
      invariant Runs(size, Started(error), run[..done]) && s.Now() == After(size, Started(error), run[..done])
      invariant s.received == DataOf(run[..done]) && |s.written| == SentBy(run[..done])
      invariant s.writeFailed <==> WriteFails in run[..done]
      invariant s.readFailed ==> error || ReadFails in run[..done]
    {
      NextEvent(run, done);
      OneMore(size, Started(error), run[..done], run[done]);
      ghost var bufs := {s.readData, s.writeData};
      Happen(s, run[done]);
      assert s.readData in bufs && s.writeData in bufs;
      done := done + 1;
    }
    HandlersFollow(size, error, run[..done]);
    Summary(s);
  }

  /** Now, as a value that a program may look at. */
  function ViewOf(s: Session): (v: View)
    reads s
    ensures v == s.Now()
  {
    View(s.reading, s.readResult, s.writing, s.writeLength, s.sent, s.readLength, s.unsentCount, s.posted)
  }

  /** The events that every session may count on when nothing fails. */
  predicate Wanted(e: Event) { e.Sends? || e.WriteDone? || e.ReadHandler? || e.WriteHandler? }

  /** Unless something fails, everything received goes back after a few more events: the handler of a
      finished read, and at most two blocks to write. */
  method Drain(s: Session) returns (events: seq<Event>)
    requires s.Valid() && !s.writeFailed
    modifies s, s.readData, s.writeData
    ensures s.Valid() && s.writing.Idle? && s.written == s.received == old(s.received)
    ensures Runs(s.blockSize, old(s.Now()), events) && s.Now() == After(s.blockSize, old(s.Now()), events)
    ensures |events| <= 7 && forall e | e in events :: Wanted(e)
  {
    hide Session.Valid, Session.Counted, Next, Runs, After, Outstanding;
    ghost var size, v := s.blockSize, s.Now();
    events := [];
    NoEvents(events, size, v);
    Healthy(s);
    if s.reading.Finished? {
      OneMore(size, v, events, ReadHandler);
      Happen(s, ReadHandler);
      events := events + [ReadHandler];
      Healthy(s);
    }
    while !s.writing.Idle?
      invariant s.Valid() && !s.writeFailed && !s.reading.Finished? && s.received == old(s.received)
      invariant {s.readData, s.writeData} == old({s.readData, s.writeData})
      invariant Runs(size, v, events) && s.Now() == After(size, v, events)
      invariant 0 <= s.unsentCount <= 2 && |events| + 3 * s.unsentCount <= 7
      invariant forall e | e in events :: Wanted(e)
      decreases s.unsentCount
    {
      var more := WriteOut(s);
      Chained(size, v, events, more);
      events := events + more;
    }
    Summary(s);
  }

  /** What is left of the current write goes out, and its handler runs. */
  method WriteOut(s: Session) returns (events: seq<Event>)
    requires s.Valid() && !s.writeFailed && !s.writing.Idle?
    modifies s, s.readData, s.writeData
    ensures s.Valid() && !s.writeFailed && s.received == old(s.received)
    ensures {s.readData, s.writeData} == old({s.readData, s.writeData})
    ensures Runs(s.blockSize, old(s.Now()), events) && s.Now() == After(s.blockSize, old(s.Now()), events)
    ensures |events| <= 3 && forall e | e in events :: Wanted(e)
    ensures 0 <= s.unsentCount < old(s.unsentCount)
    ensures !old(s.reading).Finished? ==> !s.reading.Finished?
  {
    hide Session.Valid, Session.Counted, Runs, After, Outstanding;
    ghost var size, v := s.blockSize, s.Now();
    events := [];
    NoEvents(events, size, v);
    Healthy(s);
    if s.writing.Going? {
      var k := s.writeLength - s.sent;
      OneMore(size, v, events, Sends(k));
      Happen(s, Sends(k));
      events := events + [Sends(k)];
      OneMore(size, v, events, WriteDone);
      Happen(s, WriteDone);
      events := events + [WriteDone];
    }
    Healthy(s);
    OneMore(size, v, events, WriteHandler);
    Happen(s, WriteHandler);
    events := events + [WriteHandler];
    Healthy(s);
  }

  lemma Healthy(s: Session)
    requires s.Valid() && !s.writeFailed
    ensures 0 <= s.unsentCount <= 2 && (s.writing.Idle? <==> s.unsentCount == 0)
    ensures !s.writing.Idle? ==> s.sent <= s.writeLength
    ensures s.writing.Finished? ==> !s.writing.error
  {
  }

  lemma {:induction false} Chained(size: nat, v: View, first: seq<Event>, rest: seq<Event>)
    requires Runs(size, v, first) && Runs(size, After(size, v, first), rest)
    ensures Runs(size, v, first + rest) && After(size, v, first + rest) == After(size, After(size, v, first), rest)
    decreases |rest|
  {
    if rest == [] {
      assert first + rest == first;
    } else {
      var n := |rest| - 1;
      Chained(size, v, first, rest[..n]);
      OneMore(size, v, first + rest[..n], rest[n]);
      assert first + rest == first + rest[..n] + [rest[n]];
    }
  }

  lemma NoEvents(run: seq<Event>, size: nat, v: View)
    ensures run[..0] == [] && DataOf([]) == [] && SentBy([]) == 0 && Runs(size, v, []) && After(size, v, []) == v
  {
  }

  lemma Summary(s: Session)
    requires s.Valid()
    ensures s.opCount == Outstanding(s.reading) + Outstanding(s.writing)
    ensures s.reading.Going? && s.writing.Going? ==> s.readInto != s.writeFrom
    ensures |s.written| <= |s.received| && s.written == s.received[..|s.written|]
    ensures s.posted <= 1 && (s.posted == 1 <==> s.reading.Idle? && s.writing.Idle?)
    ensures !s.readFailed && !s.writeFailed ==> s.posted == 0
    ensures !s.writeFailed && s.writing.Idle? && s.reading != Finished(false) ==> s.written == s.received
  {
  }
}
