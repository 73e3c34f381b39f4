/** Erasing the partition or registering again between flushes. Both clear the resync flag at once, though
    the ring may then go on in the middle of a line. */
module LineRestart {
  import opened Bits
  import opened LinePipe
  import FL = FlashLog

  /** Whatever is put out and flushed from here on, every record is one whole line. */
  ghost predicate AlwaysWhole(u: Setup, s: Pipeline)
    requires u.max >= 2 && Shape(u, s)
  {
    forall ops :: WholeLines(Run(u, s, ops))
  }

  ghost predicate WholeLines(s: Pipeline) {
    InOrder(s.produced, s.done, |s.produced|)
  }

  ghost predicate StateFits(u: Setup, st: FL.State) {
    FL.Geometry(u.c) && |st.flash| == u.c.total && st.cursor <= u.c.total
  }

  // ---- On a line boundary nothing is lost by it ----

  lemma RestartIsGood(u: Setup, st0: FL.State, s: Pipeline, v: Setup, st: FL.State)
    requires Good(u, st0, s) && v.max == u.max && v.capacity == u.capacity && Configured(v) && StateFits(v, st)
    requires !s.resync || LineStart(s.produced, s.pos)
    ensures Good(v, st, Restarted(s, st))
  {
    hide ShortLines;
    hide FL.Geometry;
    hide Configured;
    assert Writes([]) == [];
  }

  lemma GoodIsWhole(u: Setup, st0: FL.State, s: Pipeline)
    requires Good(u, st0, s)
    ensures AlwaysWhole(u, s)
  {
    hide Streams;
    hide Configured;
    hide FL.Geometry;
    forall ops ensures WholeLines(Run(u, s, ops)) {
      RunKeepsGood(u, st0, s, ops);
      GoodMeans(u, st0, Run(u, s, ops));
    }
  }

  // ---- In the middle of a line the rest of it becomes a record ----

  /** Since `start` nothing has been handed over and no newline read, or the first record began there. */
  ghost predicate From(s: Pipeline, start: nat) {
    if s.done == [] then !s.resync && start <= s.pos <= |s.produced| && s.line == s.produced[start..s.pos] && NEWLINE !in s.line
    else s.done[0].at == start
  }

  lemma TakeFrom(u: Setup, s: Pipeline, tick: nat, x: FL.Faults, start: nat)
    requires Shape(u, s) && s.pos < |s.produced| && From(s, start)
    ensures var (ret, s') := TakeOn(u, s, s.produced[s.pos], tick, x);
            && From(s', start) && s'.pos == s.pos + 1 && (ret != FL.Ok ==> s'.done != [])
  {
    hide FL.Write;
    if s.done == [] {
      assert s.produced[start..s.pos + 1] == s.line + [s.produced[s.pos]];
    }
  }

  lemma {:induction false} ChunkFrom(u: Setup, s: Pipeline, chunk: seq<Byte>, tick: nat,
                                     faults: (nat, nat) -> FL.Faults, c: nat, n: nat, start: nat)
    requires Shape(u, s) && From(s, start) && n <= |chunk| && s.pos + |chunk| <= |s.produced|
    requires chunk == s.produced[s.pos..s.pos + |chunk|]
    ensures var (ret, s') := ChunkOn(u, s, chunk, tick, faults, c, n);
            && From(s', start) && (ret == FL.Ok ==> s'.pos == s.pos + n) && (ret != FL.Ok ==> s'.done != [])
    decreases n
  {
    hide TakeOn;
    hide From;
    if n > 0 {
      ChunkFrom(u, s, chunk, tick, faults, c, n - 1, start);
      var (ret, before) := ChunkOn(u, s, chunk, tick, faults, c, n - 1);
      if ret == FL.Ok {
        assert chunk[n - 1] == before.produced[before.pos];
        TakeFrom(u, before, tick, faults(c, n - 1), start);
      }
    }
  }

  lemma OneChunkFrom(u: Setup, s: Pipeline, tick: nat, faults: (nat, nat) -> FL.Faults, c: nat, start: nat)
    requires Shape(u, s) && From(s, start) && s.pos <= |s.produced| && s.ring == s.produced[s.pos..] && s.ring != []
    ensures var (ret, s') := OneChunk(u, s, tick, faults, c);
            && From(s', start) && (ret != FL.Ok ==> s'.done != []) && s'.produced == s.produced
            && s'.pos <= |s'.produced| && s'.ring == s'.produced[s'.pos..]
  {
    hide ChunkOn;
    var got := if |s.ring| < CHUNK then |s.ring| else CHUNK;
    var s0 := s.(ring := s.ring[got..]);
    assert s.ring[..got] == s.produced[s.pos..s.pos + got];
    assert s.ring[got..] == s.produced[s.pos + got..];
    ChunkFrom(u, s0, s.ring[..got], tick, faults, c, got, start);
  }

  lemma {:induction false} FlushFrom(u: Setup, s: Pipeline, tick: nat, faults: (nat, nat) -> FL.Faults, c: nat, start: nat)
    requires Shape(u, s) && From(s, start) && s.pos <= |s.produced| && s.ring == s.produced[s.pos..]
    requires start < |s.produced| && s.produced[|s.produced| - 1] == NEWLINE
    ensures var s' := FlushOn(u, s, tick, faults, c).1; s'.done != [] && s'.done[0].at == start
    decreases |s.ring|
  {
    hide OneChunk;
    if s.ring != [] {
      OneChunkFrom(u, s, tick, faults, c, start);
      var (ret, s') := OneChunk(u, s, tick, faults, c);
      if ret == FL.Ok { FlushFrom(u, s', tick, faults, c + 1, start); }
    }
  }

  /** Cleared in the middle of a line, the very next flush hands over the rest of that line as its first
      record, whatever the driver answers. */
  lemma NextRecordIsHalf(u: Setup, st0: FL.State, s: Pipeline, v: Setup, st: FL.State, tick: nat, faults: (nat, nat) -> FL.Faults)
    requires Good(u, st0, s) && StateFits(v, st) && s.resync && !LineStart(s.produced, s.pos)
    ensures var s' := FlushOn(v, Restarted(s, st), tick, faults, 0).1;
            && s'.done != [] && s'.done[0].at == s.pos && !LineStart(s'.produced, s'.done[0].at) && s'.produced == s.produced
            && !WholeLines(s')
  {
    hide ShortLines;
    hide FL.Geometry;
    hide Configured;
    hide FL.Run;
    FlushFrom(v, Restarted(s, st), tick, faults, 0, s.pos);
    FlushKeepsProduced(v, Restarted(s, st), tick, faults, 0);
  }

  // ---- The exact condition ----

  /** After a restart on any flash, of the same or another geometry, all later records are whole lines if and
      only if the assembler was not waiting for a newline, or stands right behind one. */
  lemma RestartWholeIff(u: Setup, st0: FL.State, s: Pipeline, v: Setup, st: FL.State)
    requires Good(u, st0, s) && v.max == u.max && v.capacity == u.capacity && Configured(v) && StateFits(v, st)
    ensures v.max >= 2 && Shape(v, Restarted(s, st))
    ensures AlwaysWhole(v, Restarted(s, st)) <==> !s.resync || LineStart(s.produced, s.pos)
  {
    hide FL.Geometry;
    hide LineStart;
    hide Streams;
    if !s.resync || LineStart(s.produced, s.pos) {
      RestartIsGood(u, st0, s, v, st);
      GoodIsWhole(v, st, Restarted(s, st));
    } else {
      var faults := (c: nat, i: nat) => FL.NO_FAULTS;
      NextRecordIsHalf(u, st0, s, v, st, 0, faults);
      OneFlush(v, Restarted(s, st), 0, faults);
      assert !WholeLines(Run(v, Restarted(s, st), [FlushOp(0, faults)]));
    }
  }

  lemma OneFlush(u: Setup, s: Pipeline, tick: nat, faults: (nat, nat) -> FL.Faults)
    requires u.max >= 2 && Shape(u, s)
    ensures Run(u, s, [FlushOp(tick, faults)]) == FlushOn(u, s, tick, faults, 0).1
  {
    hide FlushOn;
    var ops := [FlushOp(tick, faults)];
    assert ops[..0] == [];
    assert Run(u, s, ops[..0]) == s;
  }

  /** So for the erase, which only clears the flag when it succeeds. */
  lemma EraseWholeIff(u: Setup, st0: FL.State, s: Pipeline, opens: bool, o: FL.EraseOutcome)
    requires Good(u, st0, s)
    ensures u.max >= 2 && Shape(u, EraseOn(u, s, opens, o).1)
    ensures AlwaysWhole(u, EraseOn(u, s, opens, o).1) <==>
            EraseOn(u, s, opens, o).0 != FL.Ok || !s.resync || LineStart(s.produced, s.pos)
  {
    hide Streams;
    hide LineStart;
    hide FL.Geometry;
    hide Configured;
    var (ret, s') := EraseOn(u, s, opens, o);
    if ret == FL.OpenError {
      GoodIsWhole(u, st0, s);
    } else if ret == FL.Ok {
      RestartWholeIff(u, st0, s, u, s'.flash);
    } else {
      FailedEraseIsGood(u, st0, s, s'.flash);
      GoodIsWhole(u, s'.flash, s');
    }
  }

  lemma FailedEraseIsGood(u: Setup, st0: FL.State, s: Pipeline, st: FL.State)
    requires Good(u, st0, s) && StateFits(u, st)
    ensures Good(u, st, Restarted(s, st).(resync := s.resync))
  {
    hide ShortLines;
    hide FL.Geometry;
    hide Configured;
    assert Writes([]) == [];
  }

  // ---- When it can happen ----

  /** The reader waits for a newline in the middle of a line. */
  ghost predicate InMiddle(s: Pipeline) {
    s.resync && !LineStart(s.produced, s.pos)
  }

  /** From the start some outputs and flushes get there if and only if lines may have more than their newline
      and the ring holds more than one chunk. By EraseWholeIff an erase then lets half a line through. */
  lemma MiddleReachableIff(u: Setup, st: FL.State)
    requires Configured(u) && StateFits(u, st)
    ensures (exists ops :: InMiddle(Run(u, Start(st), ops))) <==> u.max >= 3 && u.capacity > CHUNK
  {
    hide InMiddle;
    hide FL.Geometry;
    if u.max >= 3 && u.capacity > CHUNK {
      MiddleIsReached(u, st);
    } else {
      forall ops ensures !InMiddle(Run(u, Start(st), ops)) {
        if u.max == 2 { OnlyNewlines(u, st, ops); } else { OneChunkEnough(u, st, ops); }
      }
    }
  }

  /** An empty line and k lines of one character. */
  function Lines(k: nat): seq<PipeOp> {
    if k == 0 then [OutputOp([NEWLINE])] else Lines(k - 1) + [OutputOp([97, NEWLINE])]
  }

  function Bytes(k: nat): (r: seq<Byte>)
    ensures |r| == 1 + 2 * k && r[0] == NEWLINE
  {
    if k == 0 then [NEWLINE] else Bytes(k - 1) + [97, NEWLINE]
  }

  lemma {:induction false} ByteAt(k: nat, j: nat)
    requires j < k
    ensures Bytes(k)[1 + 2 * j] == 97
    decreases k
  {
    if j < k - 1 { ByteAt(k - 1, j); }
  }

  lemma {:induction false} LinesInRing(u: Setup, st: FL.State, k: nat)
    requires u.max >= 3 && 1 + 2 * k <= u.capacity && Shape(u, Start(st))
    ensures Run(u, Start(st), Lines(k)) == Start(st).(ring := Bytes(k), produced := Bytes(k))
    decreases k
  {
    hide FlushOn;
    hide Shape;
    var ops := Lines(k);
    assert Run(u, Start(st), []) == Start(st);
    if k == 0 {
      assert ops[..0] == [];
    } else {
      LinesInRing(u, st, k - 1);
      assert ops[..|ops| - 1] == Lines(k - 1);
      assert [97, NEWLINE][..1] + [NEWLINE] == [97, NEWLINE];
    }
  }

  lemma MiddleIsReached(u: Setup, st: FL.State)
    requires Configured(u) && StateFits(u, st) && u.max >= 3 && u.capacity > CHUNK
    ensures exists ops :: InMiddle(Run(u, Start(st), ops))
  {
    hide FL.Geometry;
    hide FlushOn;
    hide Lines;
    var faults := (c: nat, i: nat) => FL.Faults(false, FL.Done, true, FL.Done);
    var ops := Lines(64) + [FlushOp(0, faults)];
    LinesInRing(u, st, 64);
    assert ops[..|ops| - 1] == Lines(64);
    StopsInMiddle(u, st, 0, faults);
    assert InMiddle(Run(u, Start(st), ops));
  }

  /** The record of the empty line fails, and the chunk ends in the middle of the last line. */
  lemma StopsInMiddle(u: Setup, st: FL.State, tick: nat, faults: (nat, nat) -> FL.Faults)
    requires Configured(u) && Shape(u, Start(st)) && u.max >= 3 && !faults(0, 0).opens
    ensures var s := Start(st).(ring := Bytes(64), produced := Bytes(64));
            Shape(u, s) && InMiddle(FlushOn(u, s, tick, faults, 0).1)
  {
    hide TakeOn;
    hide ChunkOn;
    hide Bytes;
    hide Configured;
    var s := Start(st).(ring := Bytes(64), produced := Bytes(64));
    var s0, chunk := s.(ring := s.ring[CHUNK..]), s.ring[..CHUNK];
    ByteAt(64, 63);
    EmptyLineFails(u, s0, tick, faults(0, 0));
    FirstFails(u, s0, chunk, tick, faults);
  }

  lemma EmptyLineFails(u: Setup, s: Pipeline, tick: nat, x: FL.Faults)
    requires Shape(u, s) && Configured(u) && u.max >= 3 && s.line == [] && !s.resync && !x.opens
    ensures var (ret, s') := TakeOn(u, s, NEWLINE, tick, x); ret == FL.OpenError && s'.resync && s'.produced == s.produced
  {
    assert [] + [NEWLINE] == [NEWLINE];
    ShorterFits(u.c, 1, u.max - 1);
    assert FL.Write(u.c, s.flash, FL.Record([NEWLINE], tick), x).0 == FL.OpenError;
  }

  lemma FirstFails(u: Setup, s: Pipeline, chunk: seq<Byte>, tick: nat, faults: (nat, nat) -> FL.Faults)
    requires Shape(u, s) && |chunk| > 0 && TakeOn(u, s, chunk[0], tick, faults(0, 0)).0 != FL.Ok
    ensures ChunkOn(u, s, chunk, tick, faults, 0, |chunk|) == TakeOn(u, s, chunk[0], tick, faults(0, 0))
  {
    hide TakeOn;
    assert ChunkOn(u, s, chunk, tick, faults, 0, 0) == (FL.Ok, s);
    ChunkEnds(u, s, chunk, tick, faults, 0, 1, |chunk|);
  }

  lemma StreamOf(u: Setup, st0: FL.State, s: Pipeline)
    requires Good(u, st0, s)
    ensures ShortLines(s.produced, u.max) && Terminated(s.produced)
  {
    hide ShortLines;
    hide InOrder;
    hide FL.Run;
    hide FL.Geometry;
    hide Configured;
  }

  lemma AllNewlines(stream: seq<Byte>, pos: nat)
    requires ShortLines(stream, 2) && pos <= |stream|
    ensures LineStart(stream, pos)
  {
    if pos > 0 {
      assert stream[pos - 1..pos] == [stream[pos - 1]];
      assert NEWLINE in stream[pos - 1..pos];
    }
  }

  /** With a buffer for one byte and its terminator there are only newlines. */
  lemma OnlyNewlines(u: Setup, st: FL.State, ops: seq<PipeOp>)
    requires Configured(u) && StateFits(u, st) && u.max == 2
    ensures !InMiddle(Run(u, Start(st), ops))
  {
    hide FL.Geometry;
    hide Streams;
    hide Configured;
    hide ShortLines;
    hide LineStart;
    hide Run;
    StartIsGood(u, st);
    RunKeepsGood(u, st, Start(st), ops);
    var s := Run(u, Start(st), ops);
    StreamOf(u, st, s);
    AllNewlines(s.produced, s.pos);
  }

  /** A ring that fits one chunk is emptied by every flush, so the reader always stands behind a line. */
  lemma {:induction false} OneChunkEnough(u: Setup, st: FL.State, ops: seq<PipeOp>)
    requires Configured(u) && StateFits(u, st) && u.capacity <= CHUNK
    ensures var s := Run(u, Start(st), ops); Good(u, st, s) && LineStart(s.produced, s.pos) && !InMiddle(s)
  {
    hide FL.Geometry;
    hide Configured;
    hide Streams;
    hide Step;
    hide LineStart;
    if ops == [] {
      StartIsGood(u, st);
      assert LineStart([], 0) by { NothingRead(); }
    } else {
      var front, op := ops[..|ops| - 1], ops[|ops| - 1];
      OneChunkEnough(u, st, front);
      StepKeepsGood(u, st, Run(u, Start(st), front), op);
      StaysBehindLine(u, st, Run(u, Start(st), front), op);
    }
  }

  lemma NothingRead()
    ensures LineStart([], 0)
  {
  }

  lemma StaysBehindLine(u: Setup, st0: FL.State, s: Pipeline, op: PipeOp)
    requires Good(u, st0, s) && LineStart(s.produced, s.pos) && u.capacity <= CHUNK
    ensures var s' := Step(u, s, op); LineStart(s'.produced, s'.pos)
  {
    hide FL.Geometry;
    hide Configured;
    hide Streams;
    hide ShortLines;
    hide FlushOn;
    hide FailedAt;
    hide ChunkEnd;
    if op.FlushOp? {
      FlushKeepsGood(u, st0, s, op.tick, op.faults, 0);
      var (ret, s') := FlushOn(u, s, op.tick, op.faults, 0);
      if ret != FL.Ok {
        var end: nat :| s.pos < end <= s'.pos && FailedAt(s', ret, end) && s'.pos == ChunkEnd(s.pos, end, |s.produced|);
        FirstChunk(s.pos, end, |s.produced|);
      }
      StreamOf(u, st0, s');
      AtTheEnd(s'.produced, s'.pos);
    }
  }

  lemma AtTheEnd(stream: seq<Byte>, pos: nat)
    requires Terminated(stream) && pos == |stream|
    ensures LineStart(stream, pos)
  {
  }
}
