/** The asynchronous logger: any number of threads append lines to buffers under a mutex, and one
    thread takes the filled buffers away in batches and writes them to a file.  A run is any
    interleaving of appends with the steps of that thread. */
module AsyncLogging {

  /** kLargeBuffer */
  const SIZE: nat := 4000 * 1000

  /** A batch larger than this loses all but its first two buffers. */
  const MAX_BATCH: nat := 25

  /** A fixed buffer holds whole lines. */
  type Buffer = seq<string>

  function Length(b: Buffer): (n: nat) {
    if b == [] then 0 else Length(b[..|b| - 1]) + |b[|b| - 1]|
  }

  /** FixedBuffer::append: a line that does not fit is ignored. */
  function Appended(b: Buffer, line: string): (r: Buffer)
    requires Length(b) < SIZE
    ensures Length(r) < SIZE
  {
    assert (b + [line])[..|b|] == b;
    if SIZE - Length(b) > |line| then b + [line] else b
  }

  datatype Pointer = Null | To(buffer: Buffer)

  /** What is written to the file: the lines of a buffer, or the notice that n buffers were dropped. */
  datatype Chunk = Data(lines: seq<string>) | Notice(n: nat)

  // ----- what a batch is and what is written of it -----

  ghost function LinesOf(batch: seq<Buffer>): (s: seq<string>) {
    if batch == [] then [] else LinesOf(batch[..|batch| - 1]) + batch[|batch| - 1]
  }

  ghost function AllLines(batches: seq<seq<Buffer>>): (s: seq<string>) {
    if batches == [] then [] else AllLines(batches[..|batches| - 1]) + LinesOf(batches[|batches| - 1])
  }

  ghost function Datas(batch: seq<Buffer>): (s: seq<Chunk>) {
    seq(|batch|, i requires 0 <= i < |batch| => Data(batch[i]))
  }

  ghost function Kept(batch: seq<Buffer>): (s: seq<Buffer>) {
    if |batch| > MAX_BATCH then batch[..2] else batch
  }

  ghost function Header(batch: seq<Buffer>): (s: seq<Chunk>) {
    if |batch| > MAX_BATCH then [Notice(|batch| - 2)] else []
  }

  /** Everything written for the given batches. */
  ghost function Output(batches: seq<seq<Buffer>>): (s: seq<Chunk>) {
    if batches == [] then []
    else
      var b := batches[|batches| - 1];
      Output(batches[..|batches| - 1]) + Header(b) + Datas(Kept(b))
  }

  /** The lines among what was written. */
  ghost function LinesIn(file: seq<Chunk>): (s: seq<string>) {
    if file == [] then []
    else
      var c := file[|file| - 1];
      LinesIn(file[..|file| - 1]) + (if c.Data? then c.lines else [])
  }

  // ----- the logger -----

  /** Where the writing thread is: at the top of its loop, waiting, about to check the size of its
      batch, or writing buffer i of it. */
  datatype Stage = Top | Waiting | Swapped | Writing(i: nat)

  /** What a step of the writing thread sees and changes. */
  datatype View = View(stage: Stage, current: Buffer, buffers: seq<Buffer>, toWrite: seq<Buffer>, file: seq<Chunk>)

  /** One step: wait while there is nothing, take everything there is, cut it down, write one buffer, or
      start again. */
  ghost function Moved(v: View): (w: View) {
    match v.stage
    case Top => if v.buffers == [] then v.(stage := Waiting) else Taken(v)
    case Waiting => Taken(v)
    case Swapped => v.(stage := Writing(0), toWrite := Kept(v.toWrite), file := v.file + Header(v.toWrite))
    case Writing(i) =>
      if i < |v.toWrite| then v.(stage := Writing(i + 1), file := v.file + [Data(v.toWrite[i])])
      else v.(stage := Top, toWrite := [])
  }

  ghost function Taken(v: View): (w: View) {
    v.(stage := Swapped, current := [], buffers := [], toWrite := v.buffers + [v.current])
  }

  /** A line goes into the current buffer if there is room, else into a new one. */
  ghost function Added(v: View, line: string): (w: View) {
    if Length(v.current) + |line| < SIZE then v.(current := v.current + [line])
    else v.(current := if |line| < SIZE then [line] else [], buffers := v.buffers + [v.current])
  }

  class Logger {
    var current: Buffer
    var next: Pointer
    var buffers: seq<Buffer>
    // the writing thread's own variables
    var stage: Stage
    var new1: Pointer
    var new2: Pointer
    var toWrite: seq<Buffer>
    var file: seq<Chunk>
    /** All lines appended that fit into a buffer at all. */
    ghost var lines: seq<string>
    /** All batches taken by the writing thread. */
    ghost var batches: seq<seq<Buffer>>

    /** What the mutex protects. */
    ghost predicate Shared()
      reads `current, `next, `buffers, `lines, `batches
    {
      && Length(current) < SIZE
      && (next.Null? ==> buffers != [])
      && (next.To? ==> next.buffer == [])
      && lines == AllLines(batches) + (LinesOf(buffers) + current)
    }

    /** A spare buffer, if there is one, is empty; when the second is missing, the batch has two. */
    ghost predicate Spares(batch: seq<Buffer>)
      reads `new1, `new2
    {
      && batch != [] && new1.Null?
      && (new2.Null? ==> |batch| >= 2) && (new2.To? ==> new2.buffer == [])
    }

    ghost predicate Own()
      reads `stage, `new1, `new2, `toWrite, `file, `batches
    {
      match stage
      case Top => new1 == To([]) && new2 == To([]) && toWrite == [] && file == Output(batches)
      case Waiting => new1 == To([]) && new2 == To([]) && toWrite == [] && file == Output(batches)
      case Swapped =>
        && batches != [] && toWrite == batches[|batches| - 1] && Spares(toWrite)
        && file == Output(batches[..|batches| - 1])
      case Writing(i) =>
        && batches != [] && toWrite == Kept(batches[|batches| - 1]) && Spares(toWrite) && i <= |toWrite|
        && file == Output(batches[..|batches| - 1]) + Header(batches[|batches| - 1]) + Datas(toWrite[..i])
    }

    ghost predicate Valid()
      reads this
    {
      Shared() && Own()
    }

    ghost function Now(): (v: View)
      reads this
    {
      View(stage, current, buffers, toWrite, file)
    }

    constructor ()
      ensures Valid() && Now() == View(Top, [], [], [], []) && lines == [] && batches == []
    {
      current, next, buffers := [], To([]), [];
      stage, new1, new2, toWrite := Top, To([]), To([]), [];
      file, lines, batches := [], [], [];
    }

    /** append */
    method Append(line: string)
      requires Shared()
      modifies `current, `next, `buffers, `lines
      ensures Shared() && lines == old(lines) + (if |line| < SIZE then [line] else [])
      ensures SIZE - old(Length(current)) > |line| ==>
                current == old(current) + [line] && buffers == old(buffers) && next == old(next)
      ensures SIZE - old(Length(current)) <= |line| ==>
                current == Appended([], line) && buffers == old(buffers) + [old(current)] && next == Null
      ensures Now() == Added(old(Now()), line)
    {
      hide AllLines, LinesOf, Length;
      NothingYet();
      ghost var done := AllLines(batches);
      if SIZE - Length(current) > |line| {
        assert done + (LinesOf(buffers) + (current + [line])) == done + (LinesOf(buffers) + current) + [line];
        current := Appended(current, line);
      } else {
        LinesAppend(buffers, current);
        buffers := buffers + [current];
        if next.To? {
          current := next.buffer;
          next := Null;
        } else {
          current := [];
        }
        current := Appended(current, line);
      }
      if |line| < SIZE {
        lines := lines + [line];
      }
    }

    /** The critical section of the writing thread, after the wait if there was one. */
    method Swap()
      requires Shared() && new1 == To([]) && new2 == To([])
      modifies `current, `next, `buffers, `new1, `new2, `toWrite, `batches
      ensures Shared() && Spares(toWrite) && batches == old(batches) + [toWrite] && lines == old(lines)
      ensures toWrite == old(buffers) + [old(current)] && current == [] && buffers == [] && next == To([])
    {
      hide LinesOf, AllLines, Length;
      NothingYet();
      LinesAppend(buffers, current);
      BatchAppend(batches, buffers + [current]);
      assert lines == AllLines(batches + [buffers + [current]]) + (LinesOf([]) + []);
      batches := batches + [buffers + [current]];
      buffers := buffers + [current];
      current := new1.buffer;
      new1 := Null;
      toWrite, buffers := buffers, [];
      if next.Null? {
        next := new2;
        new2 := Null;
      }
    }

    method Take()
      requires Valid() && (stage == Top || stage == Waiting)
      modifies `current, `next, `buffers, `new1, `new2, `toWrite, `batches, `stage
      ensures Valid() && stage == Swapped && lines == old(lines)
      ensures toWrite == old(buffers) + [old(current)] && current == [] && buffers == [] && next == To([])
    {
      hide Shared, Spares, Output;
      ghost var bs := batches;
      Swap();
      assert batches[..|batches| - 1] == bs;
      assert toWrite != [];
      stage := Swapped;
    }

    /** A batch that is too large is cut down to two buffers. */
    method DropExcess()
      requires Valid() && stage == Swapped
      modifies `stage, `toWrite, `file
      ensures Valid() && stage == Writing(0)
      ensures file == old(file) + Header(old(toWrite)) && toWrite == Kept(old(toWrite))
    {
      hide Shared, Output;
      if |toWrite| > MAX_BATCH {
        file := file + [Notice(|toWrite| - 2)];
        toWrite := toWrite[..2];
      }
      stage := Writing(0);
    }

    method WriteOne(i: nat)
      requires Valid() && stage == Writing(i) && i < |toWrite|
      modifies `stage, `file
      ensures Valid() && stage == Writing(i + 1) && file == old(file) + [Data(toWrite[i])]
    {
      hide Shared, Output;
      assert Datas(toWrite[..i + 1]) == Datas(toWrite[..i]) + [Data(toWrite[i])];
      file := file + [Data(toWrite[i])];
      stage := Writing(i + 1);
    }

    /** The written buffers become the spare buffers of the next round. */
    method Recycle()
      requires Valid() && stage == Writing(|toWrite|)
      modifies `stage, `new1, `new2, `toWrite
      ensures Valid() && stage == Top
    {
      hide Shared;
      assert toWrite[..|toWrite|] == toWrite;
      if |toWrite| > 2 {
        toWrite := toWrite[..2];
      }
      if new1.Null? {
        assert toWrite != [];
        toWrite, new1 := toWrite[..|toWrite| - 1], To([]);
      }
      if new2.Null? {
        assert toWrite != [];
        toWrite, new2 := toWrite[..|toWrite| - 1], To([]);
      }
      toWrite := [];
      stage := Top;
    }

    /** One step of the writing thread.  Every assert of threadFunc holds. */
    method Step()
      requires Valid()
      modifies this
      ensures Valid() && lines == old(lines)
      ensures Now() == Moved(old(Now()))
    {
      match stage
      case Top =>
        assert new1.To? && Length(new1.buffer) == 0 && new2.To? && Length(new2.buffer) == 0 && toWrite == [];
        if buffers == [] {
          stage := Waiting;
        } else {
          Take();
        }
      case Waiting =>
        Take();
      case Swapped =>
        DropExcess();
      case Writing(i) =>
        if i < |toWrite| {
          WriteOne(i);
        } else {
          Recycle();
        }
    }
  }

  lemma NothingYet()
    ensures LinesOf([]) == [] && Length([]) == 0
  {
  }

  lemma LinesAppend(batch: seq<Buffer>, b: Buffer)
    ensures LinesOf(batch + [b]) == LinesOf(batch) + b
  {
    assert (batch + [b])[..|batch|] == batch;
  }

  lemma BatchAppend(batches: seq<seq<Buffer>>, batch: seq<Buffer>)
    ensures AllLines(batches + [batch]) == AllLines(batches) + LinesOf(batch)
  {
    assert (batches + [batch])[..|batches|] == batches;
  }

  // ----- what is in the file -----

  lemma {:induction false} LinesInAppend(a: seq<Chunk>, b: seq<Chunk>)
    ensures LinesIn(a + b) == LinesIn(a) + LinesIn(b)
  {
    if b == [] {
      assert a + b == a;
    } else {
      var n := |b| - 1;
      assert (a + b)[..|a + b| - 1] == a + b[..n];
      LinesInAppend(a, b[..n]);
    }
  }

  lemma {:induction false} LinesInDatas(batch: seq<Buffer>)
    ensures LinesIn(Datas(batch)) == LinesOf(batch)
  {
    if batch != [] {
      var n := |batch| - 1;
      assert Datas(batch)[..n] == Datas(batch[..n]);
      LinesInDatas(batch[..n]);
    }
  }

  lemma {:induction false} LinesSplit(batch: seq<Buffer>, i: nat)
    requires i <= |batch|
    ensures LinesOf(batch) == LinesOf(batch[..i]) + LinesOf(batch[i..])
  {
    if i == |batch| {
      assert batch[..i] == batch && batch[i..] == [];
    } else {
      var n := |batch| - 1;
      LinesSplit(batch[..n], i);
      assert batch[..n][..i] == batch[..i] && batch[i..][..n - i] == batch[..n][i..];
    }
  }

  /** The batches without the buffers that are dropped. */
  ghost function AllKept(batches: seq<seq<Buffer>>): (s: seq<seq<Buffer>>) {
    if batches == [] then [] else AllKept(batches[..|batches| - 1]) + [Kept(batches[|batches| - 1])]
  }

  lemma {:induction false} OutputLines(batches: seq<seq<Buffer>>)
    ensures LinesIn(Output(batches)) == AllLines(AllKept(batches))
  {
    if batches != [] {
      var n := |batches| - 1;
      var b := batches[n];
      OutputLines(batches[..n]);
      LinesInAppend(Output(batches[..n]) + Header(b), Datas(Kept(b)));
      LinesInAppend(Output(batches[..n]), Header(b));
      HeaderHasNoLines(b);
      LinesInDatas(Kept(b));
      BatchAppend(AllKept(batches[..n]), Kept(b));
    }
  }

  lemma HeaderHasNoLines(b: seq<Buffer>)
    ensures LinesIn(Header(b)) == []
  {
    if |b| > MAX_BATCH {
      assert Header(b)[..0] == [];
    }
  }

  /** What the writing thread has taken but not written yet. */
  ghost function Pending(l: Logger): (s: seq<Buffer>)
    requires l.Own()
    reads l
  {
    match l.stage
    case Swapped => Kept(l.toWrite)
    case Writing(i) => l.toWrite[i..]
    case _ => []
  }

  /** The file and the batch in hand hold, in order, the lines of every batch except those in the
      dropped buffers. */
  lemma FileHoldsBatches(l: Logger)
    requires l.Own()
    ensures LinesIn(l.file) + LinesOf(Pending(l)) == AllLines(AllKept(l.batches))
  {
    hide Output, LinesIn, AllLines;
    if l.stage == Top || l.stage == Waiting {
      OutputLines(l.batches);
    } else {
      var n := |l.batches| - 1;
      var front, b := l.batches[..n], l.batches[n];
      OutputLines(front);
      BatchAppend(AllKept(front), Kept(b));
      if l.stage.Writing? {
        LinesInAppend(Output(front) + Header(b), Datas(l.toWrite[..l.stage.i]));
        LinesInAppend(Output(front), Header(b));
        HeaderHasNoLines(b);
        LinesInDatas(l.toWrite[..l.stage.i]);
        LinesSplit(l.toWrite, l.stage.i);
      }
    }
  }

  lemma {:induction false} NothingDropped(batches: seq<seq<Buffer>>)
    requires forall i | 0 <= i < |batches| :: |batches[i]| <= MAX_BATCH
    ensures AllKept(batches) == batches
  {
    if batches != [] {
      NothingDropped(batches[..|batches| - 1]);
    }
  }

  /** As long as no batch was too large, nothing is lost, duplicated or reordered: the file, the batch
      in hand, the full buffers and the current buffer are exactly what was appended. */
  lemma NothingLost(l: Logger)
    requires l.Valid() && forall i | 0 <= i < |l.batches| :: |l.batches[i]| <= MAX_BATCH
    ensures l.lines == LinesIn(l.file) + LinesOf(Pending(l)) + LinesOf(l.buffers) + l.current
    ensures Bytes(l.lines)
            == Bytes(LinesIn(l.file)) + Bytes(LinesOf(Pending(l))) + Bytes(LinesOf(l.buffers)) + Bytes(l.current)
  {
    hide LinesIn, LinesOf, AllLines, AllKept, Bytes;
    FileHoldsBatches(l);
    NothingDropped(l.batches);
    var f, p, b := LinesIn(l.file), LinesOf(Pending(l)), LinesOf(l.buffers);
    BytesAppend(f + p + b, l.current);
    BytesAppend(f + p, b);
    BytesAppend(f, p);
  }

  /** The bytes of a sequence of lines. */
  function Bytes(lines: seq<string>): (s: string) {
    if lines == [] then "" else Bytes(lines[..|lines| - 1]) + lines[|lines| - 1]
  }

  lemma {:induction false} BytesAppend(a: seq<string>, b: seq<string>)
    ensures Bytes(a + b) == Bytes(a) + Bytes(b)
  {
    hide Bytes;
    if b == [] {
      assert a + b == a;
      NoBytes();
    } else {
      var n := |b| - 1;
      assert a + b == (a + b[..n]) + [b[n]] && b == b[..n] + [b[n]];
      BytesAppend(a, b[..n]);
      BytesSnoc(a + b[..n], b[n]);
      BytesSnoc(b[..n], b[n]);
    }
  }

  lemma NoBytes()
    ensures Bytes([]) == ""
  {
  }

  lemma BytesSnoc(s: seq<string>, line: string)
    ensures Bytes(s + [line]) == Bytes(s) + line
  {
    assert (s + [line])[..|s|] == s;
  }

  // ----- runs -----

  /** Somebody appends a line, or the writing thread takes a step. */
  datatype Action = Log(line: string) | Write

  ghost function Logged(run: seq<Action>): (s: seq<string>) {
    if run == [] then []
    else
      var a := run[|run| - 1];
      Logged(run[..|run| - 1]) + (if a.Log? && |a.line| < SIZE then [a.line] else [])
  }

  lemma LoggedNext(run: seq<Action>, k: nat)
    requires k < |run|
    ensures var a := run[k];
            Logged(run[..k + 1]) == Logged(run[..k]) + (if a.Log? && |a.line| < SIZE then [a.line] else [])
  {
    assert run[..k + 1][..k] == run[..k];
  }

  /** What the run leads to. */
  ghost function After(run: seq<Action>): (v: View) {
    if run == [] then View(Top, [], [], [], [])
    else
      var v := After(run[..|run| - 1]);
      match run[|run| - 1]
      case Log(line) => Added(v, line)
      case Write => Moved(v)
  }

  lemma AfterNext(run: seq<Action>, k: nat)
    requires k < |run|
    ensures var v := After(run[..k]);
            After(run[..k + 1]) == match run[k] case Log(line) => Added(v, line) case Write => Moved(v)
  {
    hide Added, Moved;
    assert run[..k + 1][..k] == run[..k];
  }

  /** In every run the logger holds or has written the lines that were logged, in that order, and has
      lost only lines that no buffer can hold and the dropped buffers of batches that were too large. */
  method Run(run: seq<Action>) returns (l: Logger)
    ensures fresh(l) && l.Valid() && l.lines == Logged(run) && l.Now() == After(run)
    ensures LinesIn(l.file) + LinesOf(Pending(l)) == AllLines(AllKept(l.batches))
    ensures Logged(run) == AllLines(l.batches) + (LinesOf(l.buffers) + l.current)
    ensures (forall i | 0 <= i < |l.batches| :: |l.batches[i]| <= MAX_BATCH)
            ==> Logged(run) == LinesIn(l.file) + LinesOf(Pending(l)) + LinesOf(l.buffers) + l.current
  {
    hide Logged, After, Moved, Added, Logger.Shared, Logger.Own, LinesIn, LinesOf, AllLines, AllKept, Pending;
    l := new Logger();
    assert run[..0] == [];
    LoggedNone();
    for k := 0 to |run|
      invariant fresh(l) && l.Valid() && l.lines == Logged(run[..k]) && l.Now() == After(run[..k])
    {
      LoggedNext(run, k);
      AfterNext(run, k);
      match run[k]
      case Log(line) => l.Append(line);
      case Write => l.Step();
    }
    assert run[..|run|] == run;
    Summary(l);
  }

  // ----- everything gets written -----

  /** n steps of the writing thread. */
  ghost function Moves(n: nat, v: View): (w: View) {
    if n == 0 then v else Moved(Moves(n - 1, v))
  }

  /** The batch in hand is written, and the thread is back at the top of its loop. */
  method Finish(l: Logger) returns (n: nat)
    requires l.Valid() && (l.stage == Swapped || l.stage.Writing?)
    modifies l
    ensures l.Valid() && l.stage == Top && l.lines == old(l.lines)
    ensures l.current == old(l.current) && l.buffers == old(l.buffers)
    ensures n <= old(|l.toWrite|) + 2 && l.Now() == Moves(n, old(l.Now()))
  {
    hide Logger.Shared, Output;
    ghost var v := l.Now();
    n := 0;
    if l.stage == Swapped {
      l.Step();
      n := 1;
    }
    while l.stage != Top
      invariant l.Valid() && l.lines == old(l.lines) && l.current == old(l.current) && l.buffers == old(l.buffers)
      invariant l.stage == Top || l.stage.Writing?
      invariant l.Now() == Moves(n, v) && |l.toWrite| <= |v.toWrite|
      invariant l.stage == Top ==> n <= |v.toWrite| + 2
      invariant l.stage.Writing? ==> n <= l.stage.i + 1
      decreases if l.stage == Top then 0 else 1 + |l.toWrite| - l.stage.i
    {
      l.Step();
      n := n + 1;
    }
  }

  /** After a bounded number of steps of the writing thread, everything that had been appended has gone to
      the file, except what was dropped. */
  method Flush(l: Logger) returns (n: nat)
    requires l.Valid()
    modifies l
    ensures l.Valid() && l.lines == old(l.lines) && l.stage == Top && l.current == [] && l.buffers == []
    ensures n <= old(|l.toWrite|) + old(|l.buffers|) + 7 && l.Now() == Moves(n, old(l.Now()))
    ensures l.lines == AllLines(l.batches) && LinesIn(l.file) == AllLines(AllKept(l.batches))
    ensures (forall i | 0 <= i < |l.batches| :: |l.batches[i]| <= MAX_BATCH) ==> LinesIn(l.file) == l.lines
  {
    hide Logger.Valid, Logger.Shared, Logger.Own, Moves, LinesIn, LinesOf, AllLines, AllKept, Output;
    ghost var v := l.Now();
    n := 0;
    if l.stage != Top && l.stage != Waiting {
      n := Finish(l);
    }
    ghost var n0 := n;
    NoMoves(v);
    if l.stage == Top && l.buffers == [] {
      l.Step();
      NextMove(n, v);
      n := n + 1;
    }
    l.Step();
    NextMove(n, v);
    n := n + 1;
    ghost var w := l.Now();
    var m := Finish(l);
    MovesAdd(m, n, v);
    n := n + m;
    Flushed(l);
  }

  lemma NoMoves(v: View)
    ensures Moves(0, v) == v
  {
  }

  lemma NextMove(n: nat, v: View)
    ensures Moves(n + 1, v) == Moved(Moves(n, v))
  {
    hide Moved;
  }

  lemma {:induction false} MovesAdd(m: nat, n: nat, v: View)
    ensures Moves(m, Moves(n, v)) == Moves(n + m, v)
  {
    hide Moved;
    if m != 0 {
      MovesAdd(m - 1, n, v);
    }
  }

  lemma Flushed(l: Logger)
    requires l.Valid() && l.stage == Top && l.current == [] && l.buffers == []
    ensures l.lines == AllLines(l.batches) && LinesIn(l.file) == AllLines(AllKept(l.batches))
    ensures (forall i | 0 <= i < |l.batches| :: |l.batches[i]| <= MAX_BATCH) ==> LinesIn(l.file) == l.lines
  {
    hide LinesIn, AllLines, AllKept;
    FileHoldsBatches(l);
    if forall i | 0 <= i < |l.batches| :: |l.batches[i]| <= MAX_BATCH {
      NothingDropped(l.batches);
    }
  }

  lemma {:induction false} AfterWrites(run: seq<Action>, n: nat)
    ensures After(run + seq(n, _ => Write)) == Moves(n, After(run))
  {
    hide Moved, Added;
    var more := seq(n, _ => Write);
    if n == 0 {
      assert run + more == run;
    } else {
      AfterWrites(run, n - 1);
      assert (run + more)[..|run + more| - 1] == run + seq(n - 1, _ => Write);
    }
  }

  /** Every run, followed by enough steps of the writing thread, has written what was logged. */
  method RunAndFlush(run: seq<Action>) returns (l: Logger, n: nat)
    ensures l.Valid() && l.Now() == After(run + seq(n, _ => Write)) && l.lines == Logged(run)
    ensures n <= |After(run).toWrite| + |After(run).buffers| + 7
    ensures LinesIn(l.file) == AllLines(AllKept(l.batches)) && Logged(run) == AllLines(l.batches)
    ensures (forall i | 0 <= i < |l.batches| :: |l.batches[i]| <= MAX_BATCH) ==> LinesIn(l.file) == Logged(run)
  {
    hide Logger.Valid, Logger.Shared, Logger.Own, Moves, After, LinesIn, AllLines, AllKept, Logged, Pending;
    l := Run(run);
    n := Flush(l);
    AfterWrites(run, n);
  }

  lemma LoggedNone()
    ensures Logged([]) == [] && After([]) == View(Top, [], [], [], [])
  {
  }

  lemma Summary(l: Logger)
    requires l.Valid()
    ensures LinesIn(l.file) + LinesOf(Pending(l)) == AllLines(AllKept(l.batches))
    ensures l.lines == AllLines(l.batches) + (LinesOf(l.buffers) + l.current)
    ensures (forall i | 0 <= i < |l.batches| :: |l.batches[i]| <= MAX_BATCH)
            ==> l.lines == LinesIn(l.file) + LinesOf(Pending(l)) + LinesOf(l.buffers) + l.current
  {
    hide LinesIn, LinesOf, AllLines, AllKept;
    FileHoldsBatches(l);
    if forall i | 0 <= i < |l.batches| :: |l.batches[i]| <= MAX_BATCH {
      NothingLost(l);
    }
  }
}
