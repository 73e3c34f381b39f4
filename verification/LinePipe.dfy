/** The way of a log line to flash: producers put newline-terminated blocks into a byte
    ring, the flush takes them out in chunks, assembles whole lines and writes each as one
    record. After a driver fault it discards input up to the next newline. */
module LinePipe {
  import opened Bits
  import FL = FlashLog
  import FlashLogDevice
  import CrcEngine

  const NEWLINE: Byte := 10
  const CHUNK: nat := 128

  /** One call of the record writer: the bytes handed over, where they started in the produced
      stream, the code it returned, and the tick and driver answers it met. */
  datatype Attempt = Attempt(at: nat, line: seq<Byte>, ret: FL.Ret, tick: nat, faults: FL.Faults)

  /** The record writes of a sequence of attempts. */
  function Writes(done: seq<Attempt>): seq<FL.Op> {
    seq(|done|, i requires 0 <= i < |done| => FL.Op(FL.Record(done[i].line, done[i].tick), done[i].faults))
  }

  /** One more attempt is one more write of the run. */
  lemma WriteReplays(c: FL.Config, st: FL.State, done: seq<Attempt>, a: Attempt)
    requires FL.Geometry(c) && |st.flash| == c.total && st.cursor <= c.total
    ensures FL.Run(c, st, Writes(done + [a])) ==
            FL.Write(c, FL.Run(c, st, Writes(done)), FL.Record(a.line, a.tick), a.faults).1
  {
    hide FL.Write;
    var ops := Writes(done + [a]);
    assert ops[..|ops| - 1] == Writes(done);
  }

  ghost predicate LineStart(stream: seq<Byte>, a: nat) {
    a == 0 || (a <= |stream| && stream[a - 1] == NEWLINE)
  }

  /** stream[a..b] is exactly one line: it starts right after a newline, ends with one, and holds no other. */
  ghost predicate WholeLine(stream: seq<Byte>, a: nat, b: nat) {
    a < b <= |stream| && LineStart(stream, a) && stream[b - 1] == NEWLINE && NEWLINE !in stream[a..b - 1]
  }

  /** Between newlines there are always fewer than `max - 1` bytes. */
  ghost predicate ShortLines(stream: seq<Byte>, max: nat) {
    forall i, j :: 0 <= i <= j <= |stream| && NEWLINE !in stream[i..j] ==> j - i < max - 1
  }

  ghost predicate Terminated(stream: seq<Byte>) {
    stream == [] || stream[|stream| - 1] == NEWLINE
  }

  /** What the assembler has in hand when the stream has been read up to pos. */
  ghost predicate Assembling(stream: seq<Byte>, pos: nat, line: seq<Byte>, resync: bool) {
    && |line| <= pos <= |stream|
    && (resync ==> line == [])
    && (!resync ==> LineStart(stream, pos - |line|) && line == stream[pos - |line|..pos] && NEWLINE !in line)
  }

  /** Every attempt is one whole line of the stream, and they follow each other in order. */
  ghost predicate InOrder(stream: seq<Byte>, done: seq<Attempt>, pos: nat) {
    && (forall k :: 0 <= k < |done| ==>
          && WholeLine(stream, done[k].at, done[k].at + |done[k].line|)
          && done[k].line == stream[done[k].at..done[k].at + |done[k].line|]
          && done[k].at + |done[k].line| <= pos)
    && (forall j, k :: 0 <= j < k < |done| ==> done[j].at + |done[j].line| <= done[k].at)
  }

  function Joined(done: seq<Attempt>): seq<Byte> {
    if done == [] then [] else Joined(done[..|done| - 1]) + done[|done| - 1].line
  }

  /** Nothing lost so far: the records, the unfinished line and what follows make up the stream. */
  ghost predicate Lossless(stream: seq<Byte>, done: seq<Attempt>, line: seq<Byte>, pos: nat) {
    && (forall k :: 0 <= k < |done| ==> done[k].ret == FL.Ok)
    && pos <= |stream| && Joined(done) + line == stream[..pos]
  }

  /** The reader has taken the first pos bytes of the produced stream, holds `line`, and has made
      the attempts `done`. */
  ghost predicate Reader(stream: seq<Byte>, pos: nat, line: seq<Byte>, resync: bool, done: seq<Attempt>,
                         faulted: bool, max: nat)
  {
    && ShortLines(stream, max) && Terminated(stream)
    && Assembling(stream, pos, line, resync)
    && InOrder(stream, done, pos - |line|)
    && (!faulted ==> !resync && Lossless(stream, done, line, pos))
  }

  lemma ReaderStarts(max: nat)
    requires max >= 2
    ensures Reader([], 0, [], false, [], false, max)
  {
  }

  // ---- Producing ----

  lemma AppendKeepsStream(stream: seq<Byte>, block: seq<Byte>, max: nat)
    requires ShortLines(stream, max) && Terminated(stream)
    requires 0 < |block| < max && block[|block| - 1] == NEWLINE
    ensures ShortLines(stream + block, max) && Terminated(stream + block)
  {
    var s := stream + block;
    forall i, j | 0 <= i <= j <= |s| && j - i >= max - 1
      ensures NEWLINE in s[i..j]
    {
      if j <= |stream| {
        assert s[i..j] == stream[i..j];
      } else if i < |stream| {
        assert s[i..j][|stream| - 1 - i] == NEWLINE;
      } else {
        assert s[i..j][|s| - 1 - i] == NEWLINE;
      }
    }
  }

  lemma AppendKeepsOrder(stream: seq<Byte>, block: seq<Byte>, done: seq<Attempt>, pos: nat)
    requires InOrder(stream, done, pos)
    ensures InOrder(stream + block, done, pos)
  {
    var s := stream + block;
    forall k | 0 <= k < |done|
      ensures WholeLine(s, done[k].at, done[k].at + |done[k].line|)
      ensures done[k].line == s[done[k].at..done[k].at + |done[k].line|]
    {
      var a, b := done[k].at, done[k].at + |done[k].line|;
      assert s[a..b] == stream[a..b] && s[a..b - 1] == stream[a..b - 1];
    }
  }

  lemma AppendKeepsReader(stream: seq<Byte>, block: seq<Byte>, pos: nat, line: seq<Byte>, resync: bool,
                          done: seq<Attempt>, faulted: bool, max: nat)
    requires Reader(stream, pos, line, resync, done, faulted, max)
    requires 0 < |block| < max && block[|block| - 1] == NEWLINE
    ensures Reader(stream + block, pos, line, resync, done, faulted, max)
  {
    hide ShortLines;
    hide InOrder;
    var s := stream + block;
    AppendKeepsStream(stream, block, max);
    AppendKeepsOrder(stream, block, done, pos - |line|);
    assert s[pos - |line|..pos] == stream[pos - |line|..pos] && s[..pos] == stream[..pos];
  }

  // ---- Consuming one byte ----

  /** An unfinished line always has room for one more byte, and only a newline completes it. */
  lemma RoomForByte(stream: seq<Byte>, pos: nat, line: seq<Byte>, done: seq<Attempt>, faulted: bool, max: nat)
    requires Reader(stream, pos, line, false, done, faulted, max) && pos < |stream|
    ensures stream[pos] != NEWLINE ==> |line| + 1 < max - 1
    ensures |line| < max - 1 && |line| <= pos
  {
    var a := pos - |line|;
    assert stream[a..pos] == line;
    if stream[pos] != NEWLINE {
      assert stream[a..pos + 1] == line + [stream[pos]];
    }
  }

  lemma ReaderExtends(stream: seq<Byte>, pos: nat, line: seq<Byte>, done: seq<Attempt>, faulted: bool, max: nat)
    requires Reader(stream, pos, line, false, done, faulted, max) && pos < |stream| && stream[pos] != NEWLINE
    ensures Reader(stream, pos + 1, line + [stream[pos]], false, done, faulted, max)
  {
    assert stream[pos - |line|..pos + 1] == line + [stream[pos]];
    assert stream[..pos + 1] == stream[..pos] + [stream[pos]];
  }

  lemma AttemptKeepsOrder(stream: seq<Byte>, done: seq<Attempt>, a: Attempt)
    requires InOrder(stream, done, a.at)
    requires WholeLine(stream, a.at, a.at + |a.line|) && a.line == stream[a.at..a.at + |a.line|]
    ensures InOrder(stream, done + [a], a.at + |a.line|)
  {
    hide WholeLine;
  }

  lemma NewlineCompletesLine(stream: seq<Byte>, pos: nat, line: seq<Byte>)
    requires Assembling(stream, pos, line, false) && pos < |stream| && stream[pos] == NEWLINE
    ensures WholeLine(stream, pos - |line|, pos + 1)
    ensures line + [stream[pos]] == stream[pos - |line|..pos + 1]
  {
    assert stream[pos - |line|..pos + 1] == stream[pos - |line|..pos] + [stream[pos]];
  }

  /** The newline completes a line; the attempt is recorded with whatever code it got. */
  lemma ReaderCompletes(stream: seq<Byte>, pos: nat, line: seq<Byte>, done: seq<Attempt>, faulted: bool, max: nat, a: Attempt)
    requires Reader(stream, pos, line, false, done, faulted, max) && pos < |stream| && stream[pos] == NEWLINE
    requires a.at == pos - |line| && a.line == line + [stream[pos]]
    ensures Reader(stream, pos + 1, [], a.ret != FL.Ok, done + [a], faulted || a.ret != FL.Ok, max)
  {
    hide ShortLines;
    hide InOrder;
    hide WholeLine;
    hide Lossless;
    NewlineCompletesLine(stream, pos, line);
    AttemptKeepsOrder(stream, done, a);
    if !faulted && a.ret == FL.Ok {
      CompletesLossless(stream, done, line, pos, a);
    }
  }

  lemma CompletesLossless(stream: seq<Byte>, done: seq<Attempt>, line: seq<Byte>, pos: nat, a: Attempt)
    requires Lossless(stream, done, line, pos) && pos < |stream|
    requires a.line == line + [stream[pos]] && a.ret == FL.Ok
    ensures Lossless(stream, done + [a], [], pos + 1)
  {
    JoinedAppend(done, a);
    assert stream[..pos + 1] == stream[..pos] + [stream[pos]];
  }

  lemma ReaderDiscards(stream: seq<Byte>, pos: nat, done: seq<Attempt>, max: nat)
    requires Reader(stream, pos, [], true, done, true, max) && pos < |stream|
    ensures Reader(stream, pos + 1, [], stream[pos] != NEWLINE, done, true, max)
  {
  }

  /** Discarding the rest of a chunk is harmless once the assembler waits for a newline. */
  lemma ReaderSkips(stream: seq<Byte>, pos: nat, later: nat, done: seq<Attempt>, max: nat)
    requires Reader(stream, pos, [], true, done, true, max) && pos <= later <= |stream|
    ensures Reader(stream, later, [], true, done, true, max)
  {
  }

  lemma ResyncHoldsNothing(stream: seq<Byte>, pos: nat, line: seq<Byte>, done: seq<Attempt>, faulted: bool, max: nat)
    requires Reader(stream, pos, line, true, done, faulted, max)
    ensures line == [] && faulted
  {
  }

  lemma JoinedAppend(done: seq<Attempt>, a: Attempt)
    ensures Joined(done + [a]) == Joined(done) + a.line
  {
    assert (done + [a])[..|done|] == done;
  }

  // ---- The record writer only fails for driver faults ----

  lemma OnlyDriverFaults(c: FL.Config, st: FL.State, r: FL.Record, x: FL.Faults)
    requires FL.Geometry(c) && |st.flash| == c.total && st.cursor <= c.total
    requires FL.Fits(c, |r.data|)
    ensures FL.Write(c, st, r, x).0 in {FL.Ok, FL.OpenError, FL.EraseError, FL.WriteError}
  {
  }

  lemma ShorterFits(c: FL.Config, n: nat, max: nat)
    requires 0 < n <= max && FL.Fits(c, max)
    ensures FL.Fits(c, n)
  {
    var a := FL.Align(c);
    FL.RoundUpMultiple(FL.HEADER + max, a);
    FL.RoundUpLeast(FL.HEADER + n, a, FL.RoundUp(FL.HEADER + max, a));
  }

  // ---- Producing and flushing as functions ----

  datatype Setup = Setup(c: FL.Config, max: nat, capacity: nat)

  /** The byte ring, the line in assembly, the resync flag and the flash; and as history how many bytes
      have been read, everything accepted, every call of the record writer, and whether one failed. */
  datatype Pipeline = Pipeline(ring: seq<Byte>, line: seq<Byte>, resync: bool, flash: FL.State, pos: nat,
                               produced: seq<Byte>, done: seq<Attempt>, faulted: bool)

  ghost predicate Shape(u: Setup, s: Pipeline) {
    FL.Geometry(u.c) && |s.flash.flash| == u.c.total && s.flash.cursor <= u.c.total
  }

  function Start(st: FL.State): Pipeline {
    Pipeline([], [], false, st, 0, [], [], false)
  }

  predicate DriverFault(ret: FL.Ret) {
    ret == FL.OpenError || ret == FL.EraseError || ret == FL.WriteError
  }

  /** Formatted text enters the ring as one block that always ends in a newline, cut to the buffer; a
      block that does not fit is dropped whole. */
  function OutputOn(u: Setup, s: Pipeline, text: seq<Byte>): Pipeline
    requires u.max >= 2
  {
    var n := if |text| < u.max then |text| else u.max - 1;
    if n == 0 || |s.ring| + n > u.capacity then s
    else
      var block := text[..n - 1] + [NEWLINE];
      s.(ring := s.ring + block, produced := s.produced + block)
  }

  /** One byte of a chunk. */
  function TakeOn(u: Setup, s: Pipeline, b: Byte, tick: nat, x: FL.Faults): (r: (FL.Ret, Pipeline))
    requires Shape(u, s)
    ensures Shape(u, r.1) && r.1.ring == s.ring && r.1.produced == s.produced
  {
    var s1 := s.(pos := s.pos + 1);
    if s.resync then (FL.Ok, s1.(resync := b != NEWLINE))
    else
      var line := s.line + [b];
      if b != NEWLINE && |line| != u.max then (FL.Ok, s1.(line := line))
      else
        var (ret, flash) := FL.Write(u.c, s.flash, FL.Record(line, tick), x);
        var at := if |s.line| <= s.pos then s.pos - |s.line| else 0;
        (ret, s1.(line := [], resync := DriverFault(ret), flash := flash,
                  done := s.done + [Attempt(at, line, ret, tick, x)], faulted := s.faulted || ret != FL.Ok))
  }

  /** The first n bytes of chunk number c, up to the first record that fails. */
  function ChunkOn(u: Setup, s: Pipeline, chunk: seq<Byte>, tick: nat, faults: (nat, nat) -> FL.Faults, c: nat, n: nat)
    : (r: (FL.Ret, Pipeline))
    requires Shape(u, s) && n <= |chunk|
    ensures Shape(u, r.1) && r.1.ring == s.ring && r.1.produced == s.produced
  {
    if n == 0 then (FL.Ok, s)
    else
      var (ret, before) := ChunkOn(u, s, chunk, tick, faults, c, n - 1);
      if ret != FL.Ok then (ret, before) else TakeOn(u, before, chunk[n - 1], tick, faults(c, n - 1))
  }

  /** One turn of the flush loop: up to CHUNK bytes leave the ring, whether or not all of them are used. */
  function OneChunk(u: Setup, s: Pipeline, tick: nat, faults: (nat, nat) -> FL.Faults, c: nat): (r: (FL.Ret, Pipeline))
    requires Shape(u, s) && s.ring != []
    ensures Shape(u, r.1) && |r.1.ring| < |s.ring|
  {
    var got := if |s.ring| < CHUNK then |s.ring| else CHUNK;
    var (ret, after) := ChunkOn(u, s.(ring := s.ring[got..]), s.ring[..got], tick, faults, c, got);
    (ret, after.(pos := s.pos + got))
  }

  /** The flush loop from chunk c on; a failing record ends it. */
  function FlushOn(u: Setup, s: Pipeline, tick: nat, faults: (nat, nat) -> FL.Faults, c: nat): (r: (FL.Ret, Pipeline))
    requires Shape(u, s)
    ensures Shape(u, r.1)
    decreases |s.ring|
  {
    if s.ring == [] then (FL.Ok, s)
    else
      var (ret, s') := OneChunk(u, s, tick, faults, c);
      if ret != FL.Ok then (ret, s') else FlushOn(u, s', tick, faults, c + 1)
  }

  /** Starting on a fresh flash state: the resync flag is cleared, ring and line stay. The history of
      attempts starts anew, and what the flash held before is gone. */
  function Restarted(s: Pipeline, st: FL.State): Pipeline {
    s.(resync := false, flash := st, done := [], faulted := true)
  }

  /** mini_log_flash_clean_all. Only success clears the resync flag. */
  function EraseOn(u: Setup, s: Pipeline, opens: bool, o: FL.EraseOutcome): (FL.Ret, Pipeline) {
    var (ret, st) := FL.CleanAll(u.c, s.flash, opens, o);
    (ret, if ret == FL.OpenError then s else Restarted(s, st).(resync := s.resync && ret != FL.Ok))
  }

  // ---- What they keep ----

  /** The flash is what the attempts make of the first state. */
  ghost predicate Replayed(u: Setup, st0: FL.State, s: Pipeline) {
    && FL.Geometry(u.c) && |st0.flash| == u.c.total && st0.cursor <= u.c.total
    && s.flash == FL.Run(u.c, st0, Writes(s.done))
  }

  /** A maximal line fits a frame. */
  ghost predicate Configured(u: Setup) {
    u.max >= 2 && FL.Fits(u.c, u.max - 1)
  }

  ghost predicate Streams(u: Setup, st0: FL.State, s: Pipeline) {
    Replayed(u, st0, s) && Reader(s.produced, s.pos, s.line, s.resync, s.done, s.faulted, u.max)
  }

  ghost predicate Reading(u: Setup, st0: FL.State, s: Pipeline) {
    Configured(u) && u.max >= 2 && Shape(u, s) && Streams(u, st0, s)
  }

  ghost predicate Good(u: Setup, st0: FL.State, s: Pipeline) {
    && Reading(u, st0, s)
    && s.pos <= |s.produced| && s.ring == s.produced[s.pos..] && |s.ring| <= u.capacity
  }

  lemma StartIsGood(u: Setup, st: FL.State)
    requires Configured(u) && FL.Geometry(u.c) && |st.flash| == u.c.total && st.cursor <= u.c.total
    ensures Good(u, st, Start(st))
  {
    ReaderStarts(u.max);
  }

  lemma OutputKeepsGood(u: Setup, st0: FL.State, s: Pipeline, text: seq<Byte>)
    requires Good(u, st0, s)
    ensures Good(u, st0, OutputOn(u, s, text))
  {
    hide Reader;
    hide FL.Run;
    hide Replayed;
    var s' := OutputOn(u, s, text);
    if s'.produced != s.produced {
      var block := s'.produced[|s.produced|..];
      assert s'.produced == s.produced + block;
      AppendKeepsReader(s.produced, block, s.pos, s.line, s.resync, s.done, s.faulted, u.max);
      assert s'.produced[s.pos..] == s.ring + block;
    }
    assert Replayed(u, st0, s') by { SameReplay(u, st0, s, s'); }
  }

  lemma SameReplay(u: Setup, st0: FL.State, s: Pipeline, s': Pipeline)
    requires Replayed(u, st0, s) && s'.flash == s.flash && s'.done == s.done
    ensures Replayed(u, st0, s')
  {
  }

  /** Completing a line: the write is one more of the run, and only a driver fault can come back. */
  lemma WriteKeepsReading(u: Setup, st0: FL.State, s: Pipeline, tick: nat, x: FL.Faults)
    requires Reading(u, st0, s) && !s.resync && s.pos < |s.produced| && s.produced[s.pos] == NEWLINE
    ensures var (ret, s') := TakeOn(u, s, NEWLINE, tick, x);
            && Reading(u, st0, s') && s'.pos == s.pos + 1 && (ret == FL.Ok || DriverFault(ret))
            && s'.done == s.done + [Attempt(s.pos - |s.line|, s.line + [NEWLINE], ret, tick, x)]
            && |s.line| <= s.pos && s'.resync == (ret != FL.Ok) && s'.line == []
  {
    hide Reader;
    hide FL.Run;
    hide FL.Write;
    hide FL.Fits;
    RoomForByte(s.produced, s.pos, s.line, s.done, s.faulted, u.max);
    var line := s.line + [NEWLINE];
    ShorterFits(u.c, |line|, u.max - 1);
    OnlyDriverFaults(u.c, s.flash, FL.Record(line, tick), x);
    var (ret, s') := TakeOn(u, s, NEWLINE, tick, x);
    var a := Attempt(s.pos - |s.line|, line, ret, tick, x);
    ReaderCompletes(s.produced, s.pos, s.line, s.done, s.faulted, u.max, a);
    WriteReplays(u.c, st0, s.done, a);
  }

  lemma TakeKeepsReading(u: Setup, st0: FL.State, s: Pipeline, tick: nat, x: FL.Faults)
    requires Reading(u, st0, s) && s.pos < |s.produced|
    ensures var (ret, s') := TakeOn(u, s, s.produced[s.pos], tick, x);
            && Reading(u, st0, s') && s'.pos == s.pos + 1 && s.done <= s'.done
            && (ret != FL.Ok ==> FailedAt(s', ret, s'.pos))
  {
    hide Reader;
    hide FL.Write;
    hide FL.Run;
    hide Configured;
    var b := s.produced[s.pos];
    if s.resync {
      ResyncHoldsNothing(s.produced, s.pos, s.line, s.done, s.faulted, u.max);
      ReaderDiscards(s.produced, s.pos, s.done, u.max);
    } else if b == NEWLINE {
      WriteKeepsReading(u, st0, s, tick, x);
    } else {
      RoomForByte(s.produced, s.pos, s.line, s.done, s.faulted, u.max);
      ReaderExtends(s.produced, s.pos, s.line, s.done, s.faulted, u.max);
    }
  }

  /** The last attempt failed with this code, its newline being the byte before `end`. */
  ghost predicate FailedAt(s: Pipeline, ret: FL.Ret, end: nat) {
    && s.done != [] && s.resync && s.line == [] && s.faulted
    && var last := s.done[|s.done| - 1]; last.ret == ret && last.at + |last.line| == end
  }

  lemma {:induction false} ChunkKeepsReading(u: Setup, st0: FL.State, s: Pipeline, chunk: seq<Byte>, tick: nat,
                                             faults: (nat, nat) -> FL.Faults, c: nat, n: nat)
    requires Reading(u, st0, s) && n <= |chunk| && s.pos + |chunk| <= |s.produced|
    requires chunk == s.produced[s.pos..s.pos + |chunk|]
    ensures var (ret, s') := ChunkOn(u, s, chunk, tick, faults, c, n);
            && Reading(u, st0, s') && s.pos <= s'.pos <= s.pos + n && s.done <= s'.done
            && (ret == FL.Ok ==> s'.pos == s.pos + n)
            && (ret != FL.Ok ==> s.pos < s'.pos && FailedAt(s', ret, s'.pos))
  {
    hide Streams;
    hide Configured;
    hide FL.Geometry;
    hide TakeOn;
    hide FailedAt;
    if n > 0 {
      ChunkKeepsReading(u, st0, s, chunk, tick, faults, c, n - 1);
      var (ret, before) := ChunkOn(u, s, chunk, tick, faults, c, n - 1);
      if ret == FL.Ok {
        assert chunk[n - 1] == before.produced[before.pos];
        TakeKeepsReading(u, st0, before, tick, faults(c, n - 1));
      }
    }
  }

  lemma SkipKeepsReading(u: Setup, st0: FL.State, s: Pipeline, later: nat)
    requires Reading(u, st0, s) && s.resync && s.pos <= later <= |s.produced|
    ensures Reading(u, st0, s.(pos := later))
  {
    hide Reader;
    hide FL.Run;
    ResyncHoldsNothing(s.produced, s.pos, s.line, s.done, s.faulted, u.max);
    ReaderSkips(s.produced, s.pos, later, s.done, u.max);
  }

  lemma OtherRing(u: Setup, st0: FL.State, s: Pipeline, ring: seq<Byte>)
    requires Reading(u, st0, s)
    ensures Reading(u, st0, s.(ring := ring))
  {
    hide Reader;
    hide FL.Run;
  }

  /** The end of the chunk that holds the byte before `end`, for chunks that start at `start`. */
  function ChunkEnd(start: nat, end: nat, all: nat): nat {
    var e := start + FL.RoundUp(if end <= start then 0 else end - start, CHUNK);
    if e < all then e else all
  }

  /** What a turn of the flush loop keeps; a failing record's newline is in the chunk. */
  lemma ChunkKeepsGood(u: Setup, st0: FL.State, s: Pipeline, tick: nat, faults: (nat, nat) -> FL.Faults, c: nat) returns (end: nat)
    requires Good(u, st0, s) && s.ring != []
    ensures var got := if |s.ring| < CHUNK then |s.ring| else CHUNK;
            var (ret, s') := OneChunk(u, s, tick, faults, c);
            && Good(u, st0, s') && s.done <= s'.done && s'.ring == s.ring[got..] && s'.pos == s.pos + got
            && s'.produced == s.produced
            && (ret != FL.Ok ==> s.pos < end <= s.pos + got && FailedAt(s', ret, end))
  {
    hide Streams;
    hide Configured;
    hide FL.Geometry;
    hide ChunkOn;
    var got := if |s.ring| < CHUNK then |s.ring| else CHUNK;
    var s0 := s.(ring := s.ring[got..]);
    OtherRing(u, st0, s, s.ring[got..]);
    assert s.ring[..got] == s.produced[s.pos..s.pos + got];
    assert s.ring[got..] == s.produced[s.pos + got..];
    ChunkKeepsReading(u, st0, s0, s.ring[..got], tick, faults, c, got);
    var (ret, after) := ChunkOn(u, s0, s.ring[..got], tick, faults, c, got);
    end := after.pos;
    if ret != FL.Ok {
      SkipKeepsReading(u, st0, after, s.pos + got);
    }
  }

  /** A flush empties the ring, or ends at the first record that fails. Then the ring is what it was
      without the chunks taken out, the last of which is the one with the newline of that record. */
  lemma {:induction false} FlushKeepsGood(u: Setup, st0: FL.State, s: Pipeline, tick: nat, faults: (nat, nat) -> FL.Faults, c: nat)
    requires Good(u, st0, s)
    ensures var (ret, s') := FlushOn(u, s, tick, faults, c);
            && Good(u, st0, s') && s'.produced == s.produced && s.done <= s'.done && s.pos <= s'.pos
            && (ret == FL.Ok ==> s'.ring == [])
            && (ret != FL.Ok ==>
                  exists end: nat :: s.pos < end <= s'.pos && FailedAt(s', ret, end) && s'.pos == ChunkEnd(s.pos, end, |s.produced|))
    decreases |s.ring|
  {
    hide Streams;
    hide Configured;
    hide FL.Geometry;
    hide OneChunk;
    hide FailedAt;
    hide ChunkEnd;
    if s.ring != [] {
      var first := ChunkKeepsGood(u, st0, s, tick, faults, c);
      var got := if |s.ring| < CHUNK then |s.ring| else CHUNK;
      var (ret, s1) := OneChunk(u, s, tick, faults, c);
      if ret != FL.Ok {
        FirstChunk(s.pos, first, |s.produced|);
      } else {
        FlushKeepsGood(u, st0, s1, tick, faults, c + 1);
        var (ret', s') := FlushOn(u, s1, tick, faults, c + 1);
        if ret' != FL.Ok {
          var end: nat :| s1.pos < end <= s'.pos && FailedAt(s', ret', end) && s'.pos == ChunkEnd(s1.pos, end, |s.produced|);
          LaterChunk(s.pos, got, end, |s.produced|);
        }
      }
    }
  }

  lemma FirstChunk(start: nat, end: nat, all: nat)
    requires start < end <= all && end <= start + CHUNK
    ensures ChunkEnd(start, end, all) == if all - start < CHUNK then all else start + CHUNK
  {
  }

  lemma LaterChunk(start: nat, got: nat, end: nat, all: nat)
    requires got == (if all - start < CHUNK then all - start else CHUNK) && start + got < end <= all
    ensures ChunkEnd(start + got, end, all) == ChunkEnd(start, end, all)
  {
  }

  // ---- Whole runs ----

  datatype PipeOp = OutputOp(text: seq<Byte>) | FlushOp(tick: nat, faults: (nat, nat) -> FL.Faults)

  function Step(u: Setup, s: Pipeline, op: PipeOp): (r: Pipeline)
    requires u.max >= 2 && Shape(u, s)
    ensures Shape(u, r)
  {
    match op
    case OutputOp(text) => OutputOn(u, s, text)
    case FlushOp(tick, faults) => FlushOn(u, s, tick, faults, 0).1
  }

  function Run(u: Setup, s: Pipeline, ops: seq<PipeOp>): (r: Pipeline)
    requires u.max >= 2 && Shape(u, s)
    ensures Shape(u, r)
  {
    if ops == [] then s else Step(u, Run(u, s, ops[..|ops| - 1]), ops[|ops| - 1])
  }

  lemma StepKeepsGood(u: Setup, st0: FL.State, s: Pipeline, op: PipeOp)
    requires Good(u, st0, s)
    ensures Good(u, st0, Step(u, s, op)) && s.produced <= Step(u, s, op).produced && s.done <= Step(u, s, op).done
  {
    hide Good;
    match op {
      case OutputOp(text) => OutputKeepsGood(u, st0, s, text);
      case FlushOp(tick, faults) => FlushKeepsGood(u, st0, s, tick, faults, 0);
    }
  }

  lemma {:induction false} RunKeepsGood(u: Setup, st0: FL.State, s: Pipeline, ops: seq<PipeOp>)
    requires Good(u, st0, s)
    ensures Good(u, st0, Run(u, s, ops)) && s.produced <= Run(u, s, ops).produced && s.done <= Run(u, s, ops).done
  {
    hide Streams;
    hide Configured;
    hide FL.Geometry;
    hide Step;
    if ops != [] {
      RunKeepsGood(u, st0, s, ops[..|ops| - 1]);
      StepKeepsGood(u, st0, Run(u, s, ops[..|ops| - 1]), ops[|ops| - 1]);
    }
  }

  // ---- The history is true ----

  /** The code recorded for attempt k is what the writer returns on the flash the attempts before it left. */
  ghost predicate Answered(c: FL.Config, st0: FL.State, done: seq<Attempt>, k: nat)
    requires FL.Geometry(c) && |st0.flash| == c.total && st0.cursor <= c.total && k < |done|
  {
    var a := done[k];
    a.ret == FL.Write(c, FL.Run(c, st0, Writes(done[..k])), FL.Record(a.line, a.tick), a.faults).0
  }

  ghost predicate AllOk(done: seq<Attempt>) {
    forall k :: 0 <= k < |done| ==> done[k].ret == FL.Ok
  }

  ghost predicate Told(u: Setup, st0: FL.State, s: Pipeline) {
    && Shape(u, s) && Replayed(u, st0, s) && (s.faulted <==> !AllOk(s.done))
    && forall k :: 0 <= k < |s.done| ==> Answered(u.c, st0, s.done, k)
  }

  lemma AttemptTold(c: FL.Config, st0: FL.State, done: seq<Attempt>, a: Attempt)
    requires FL.Geometry(c) && |st0.flash| == c.total && st0.cursor <= c.total
    requires forall k :: 0 <= k < |done| ==> Answered(c, st0, done, k)
    requires a.ret == FL.Write(c, FL.Run(c, st0, Writes(done)), FL.Record(a.line, a.tick), a.faults).0
    ensures forall k :: 0 <= k <= |done| ==> Answered(c, st0, done + [a], k)
    ensures AllOk(done + [a]) <==> AllOk(done) && a.ret == FL.Ok
  {
    hide FL.Write;
    hide FL.Run;
    hide Writes;
    var more := done + [a];
    forall k | 0 <= k <= |done| ensures Answered(c, st0, more, k) {
      assert more[..k] == done[..k];
      if k < |done| { assert Answered(c, st0, done, k); } else { assert done[..k] == done; }
    }
    assert more[|done|] == a && forall k :: 0 <= k < |done| ==> more[k] == done[k];
  }

  lemma TakeTold(u: Setup, st0: FL.State, s: Pipeline, b: Byte, tick: nat, x: FL.Faults)
    requires Told(u, st0, s)
    ensures Told(u, st0, TakeOn(u, s, b, tick, x).1)
  {
    hide FL.Write;
    hide FL.Run;
    hide FL.Geometry;
    hide Writes;
    hide Answered;
    hide AllOk;
    var line := s.line + [b];
    if !s.resync && (b == NEWLINE || |line| == u.max) {
      var ret := FL.Write(u.c, s.flash, FL.Record(line, tick), x).0;
      var a := Attempt(if |s.line| <= s.pos then s.pos - |s.line| else 0, line, ret, tick, x);
      AttemptTold(u.c, st0, s.done, a);
      WriteReplays(u.c, st0, s.done, a);
    }
  }

  lemma {:induction false} ChunkTold(u: Setup, st0: FL.State, s: Pipeline, chunk: seq<Byte>, tick: nat,
                                     faults: (nat, nat) -> FL.Faults, c: nat, n: nat)
    requires Told(u, st0, s) && n <= |chunk|
    ensures Told(u, st0, ChunkOn(u, s, chunk, tick, faults, c, n).1)
  {
    hide Told;
    hide TakeOn;
    ToldShape(u, st0, s);
    if n > 0 {
      ChunkTold(u, st0, s, chunk, tick, faults, c, n - 1);
      var (ret, before) := ChunkOn(u, s, chunk, tick, faults, c, n - 1);
      if ret == FL.Ok { TakeTold(u, st0, before, chunk[n - 1], tick, faults(c, n - 1)); }
    }
  }

  lemma ToldShape(u: Setup, st0: FL.State, s: Pipeline)
    requires Told(u, st0, s)
    ensures Shape(u, s)
  {
  }

  lemma {:induction false} FlushTold(u: Setup, st0: FL.State, s: Pipeline, tick: nat, faults: (nat, nat) -> FL.Faults, c: nat)
    requires Told(u, st0, s)
    ensures Told(u, st0, FlushOn(u, s, tick, faults, c).1)
    decreases |s.ring|
  {
    hide Told;
    hide ChunkOn;
    ToldShape(u, st0, s);
    if s.ring != [] {
      var got := if |s.ring| < CHUNK then |s.ring| else CHUNK;
      var s0 := s.(ring := s.ring[got..]);
      ToldAside(u, st0, s, s0);
      ChunkTold(u, st0, s0, s.ring[..got], tick, faults, c, got);
      var after := ChunkOn(u, s0, s.ring[..got], tick, faults, c, got).1;
      var (ret, s') := OneChunk(u, s, tick, faults, c);
      ToldAside(u, st0, after, s');
      if ret == FL.Ok { FlushTold(u, st0, s', tick, faults, c + 1); }
    }
  }

  lemma ToldAside(u: Setup, st0: FL.State, s: Pipeline, s': Pipeline)
    requires Told(u, st0, s) && s'.flash == s.flash && s'.done == s.done && s'.faulted == s.faulted
    ensures Told(u, st0, s')
  {
    hide FL.Geometry;
    hide FL.Run;
    hide AllOk;
    hide Answered;
  }

  lemma {:induction false} RunTold(u: Setup, st0: FL.State, s: Pipeline, ops: seq<PipeOp>)
    requires u.max >= 2 && Told(u, st0, s)
    ensures Shape(u, s) && Told(u, st0, Run(u, s, ops))
  {
    hide Told;
    hide FlushOn;
    ToldShape(u, st0, s);
    if ops != [] {
      var front, op := ops[..|ops| - 1], ops[|ops| - 1];
      RunTold(u, st0, s, front);
      var before := Run(u, s, front);
      match op {
        case OutputOp(text) => ToldAside(u, st0, before, OutputOn(u, before, text));
        case FlushOp(tick, faults) => FlushTold(u, st0, before, tick, faults, 0);
      }
    }
  }

  lemma StartTold(u: Setup, st: FL.State)
    requires FL.Geometry(u.c) && |st.flash| == u.c.total && st.cursor <= u.c.total
    ensures Told(u, st, Start(st))
  {
  }

  /** Over every mix of outputs and flushes with any driver faults: every record handed to the writer is
      one whole line of the accepted stream, in order; the flash is the run of exactly those writes, each with
      the code it returned; and if none of them failed, the records, the line in assembly and the ring are
      everything accepted. */
  lemma PipeRuns(u: Setup, st: FL.State, ops: seq<PipeOp>)
    requires Configured(u) && FL.Geometry(u.c) && |st.flash| == u.c.total && st.cursor <= u.c.total
    ensures var s := Run(u, Start(st), ops);
            && InOrder(s.produced, s.done, |s.produced|)
            && s.flash == FL.Run(u.c, st, Writes(s.done))
            && (forall k :: 0 <= k < |s.done| ==> Answered(u.c, st, s.done, k))
            && (AllOk(s.done) ==> Joined(s.done) + s.line + s.ring == s.produced)
  {
    assert u.max >= 2;
    hide Configured;
    hide Answered;
    hide Replayed;
    hide InOrder;
    hide Joined;
    hide AllOk;
    hide FL.Run;
    hide Run;
    hide Good;
    StartIsGood(u, st);
    RunKeepsGood(u, st, Start(st), ops);
    GoodMeans(u, st, Run(u, Start(st), ops));
    StartTold(u, st);
    RunTold(u, st, Start(st), ops);
  }

  lemma GoodMeans(u: Setup, st0: FL.State, s: Pipeline)
    requires Good(u, st0, s)
    ensures InOrder(s.produced, s.done, |s.produced|) && s.flash == FL.Run(u.c, st0, Writes(s.done))
    ensures !s.faulted ==> Joined(s.done) + s.line + s.ring == s.produced && forall k :: 0 <= k < |s.done| ==> s.done[k].ret == FL.Ok
  {
    hide ShortLines;
    hide FL.Run;
    hide Configured;
    hide WholeLine;
    assert s.produced == s.produced[..s.pos] + s.produced[s.pos..];
  }

  // ---- What is accepted ----

  /** The block a text becomes: its first bytes, at most max - 1, with the last one made a newline. */
  ghost predicate IsCut(text: seq<Byte>, max: nat, block: seq<Byte>) {
    && 0 < |block| == (if |text| < max then |text| else max - 1)
    && (forall i :: 0 <= i < |block| - 1 ==> block[i] == text[i])
    && block[|block| - 1] == NEWLINE
  }

  /** There is text, and room for all of the block. */
  predicate Accepts(u: Setup, s: Pipeline, text: seq<Byte>)
    requires u.max >= 2
  {
    text != [] && |s.ring| + (if |text| < u.max then |text| else u.max - 1) <= u.capacity
  }

  /** An accepted text adds its block to the ring; any other changes nothing. */
  lemma OutputIs(u: Setup, s: Pipeline, text: seq<Byte>) returns (block: seq<Byte>)
    requires u.max >= 2
    ensures Accepts(u, s, text) ==>
              IsCut(text, u.max, block) && OutputOn(u, s, text) == s.(ring := s.ring + block, produced := s.produced + block)
    ensures !Accepts(u, s, text) ==> OutputOn(u, s, text) == s
  {
    block := OutputOn(u, s, text).ring[|s.ring|..];
  }

  /** The texts accepted in a run, in order. */
  function Accepted(u: Setup, s: Pipeline, ops: seq<PipeOp>): seq<seq<Byte>>
    requires u.max >= 2 && Shape(u, s)
  {
    if ops == [] then []
    else
      var before, op := Run(u, s, ops[..|ops| - 1]), ops[|ops| - 1];
      Accepted(u, s, ops[..|ops| - 1]) + if op.OutputOp? && Accepts(u, before, op.text) then [op.text] else []
  }

  function Flat(blocks: seq<seq<Byte>>): seq<Byte> {
    if blocks == [] then [] else Flat(blocks[..|blocks| - 1]) + blocks[|blocks| - 1]
  }

  ghost predicate AreCuts(texts: seq<seq<Byte>>, max: nat, blocks: seq<seq<Byte>>) {
    |blocks| == |texts| && forall k :: 0 <= k < |texts| ==> IsCut(texts[k], max, blocks[k])
  }

  /** Over any run the stream is, block by block, the cut texts of the outputs that were accepted, in order. */
  lemma {:induction false} StreamIsTexts(u: Setup, s: Pipeline, ops: seq<PipeOp>) returns (blocks: seq<seq<Byte>>)
    requires u.max >= 2 && Shape(u, s)
    ensures AreCuts(Accepted(u, s, ops), u.max, blocks) && Run(u, s, ops).produced == s.produced + Flat(blocks)
    decreases |ops|
  {
    hide Step;
    hide AreCuts;
    if ops == [] {
      blocks := [];
      assert AreCuts([], u.max, []) by { NoCuts(u.max); }
    } else {
      var front := ops[..|ops| - 1];
      var earlier := StreamIsTexts(u, s, front);
      blocks := OneMoreText(u, Run(u, s, front), ops[|ops| - 1], Accepted(u, s, front), earlier, s.produced);
    }
  }

  lemma NoCuts(max: nat)
    ensures AreCuts([], max, [])
  {
  }

  lemma OneMoreText(u: Setup, s: Pipeline, op: PipeOp, texts: seq<seq<Byte>>, blocks: seq<seq<Byte>>, first: seq<Byte>)
    returns (after: seq<seq<Byte>>)
    requires u.max >= 2 && Shape(u, s) && AreCuts(texts, u.max, blocks) && s.produced == first + Flat(blocks)
    ensures AreCuts(texts + if op.OutputOp? && Accepts(u, s, op.text) then [op.text] else [], u.max, after)
    ensures Step(u, s, op).produced == first + Flat(after)
  {
    hide OutputOn;
    hide FlushOn;
    hide IsCut;
    hide Accepts;
    after := blocks;
    match op {
      case OutputOp(text) =>
        var block := OutputIs(u, s, text);
        if Accepts(u, s, text) {
          after := blocks + [block];
          assert after[..|blocks|] == blocks;
        }
      case FlushOp(tick, faults) => FlushKeepsProduced(u, s, tick, faults, 0);
    }
  }

  lemma {:induction false} FlushKeepsProduced(u: Setup, s: Pipeline, tick: nat, faults: (nat, nat) -> FL.Faults, c: nat)
    requires Shape(u, s)
    ensures FlushOn(u, s, tick, faults, c).1.produced == s.produced
    decreases |s.ring|
  {
    if s.ring != [] {
      var (ret, s') := OneChunk(u, s, tick, faults, c);
      if ret == FL.Ok { FlushKeepsProduced(u, s', tick, faults, c + 1); }
    }
  }

  // ---- What a driver fault costs ----

  /** The remaining data stays in the ring after a fault if and only if the newline of the failing record
      is the last byte of its chunk; otherwise the bytes up to the end of the chunk are gone. */
  lemma RestStaysIff(u: Setup, st0: FL.State, s: Pipeline, tick: nat, faults: (nat, nat) -> FL.Faults) returns (end: nat)
    requires Good(u, st0, s) && FlushOn(u, s, tick, faults, 0).0 != FL.Ok
    ensures var (ret, s') := FlushOn(u, s, tick, faults, 0);
            && s.pos < end <= s'.pos <= |s.produced| && FailedAt(s', ret, end)
            && s'.ring == s.ring[s'.pos - s.pos..] && s'.pos == ChunkEnd(s.pos, end, |s.produced|)
            && (s'.ring == s.produced[end..] <==> (end - s.pos) % CHUNK == 0 || end == |s.produced|)
  {
    hide Streams;
    hide Configured;
    hide FL.Geometry;
    hide FlushOn;
    hide FailedAt;
    FlushKeepsGood(u, st0, s, tick, faults, 0);
    var (ret, s') := FlushOn(u, s, tick, faults, 0);
    var e: nat :| s.pos < e <= s'.pos && FailedAt(s', ret, e) && s'.pos == ChunkEnd(s.pos, e, |s.produced|);
    end := e;
    assert s'.pos == end <==> (end - s.pos) % CHUNK == 0 || end == |s.produced| by { ChunkEndIs(s.pos, end, |s.produced|); }
    assert |s'.ring| == |s.produced| - s'.pos && |s.produced[end..]| == |s.produced| - end;
  }

  lemma ChunkEndIs(start: nat, end: nat, all: nat)
    requires start < end <= all
    ensures ChunkEnd(start, end, all) == end <==> (end - start) % CHUNK == 0 || end == all
  {
  }

  /** No record since `n` starts at or before p, nor does the line in assembly. */
  ghost predicate Beyond(s: Pipeline, p: nat, n: nat) {
    && (if s.resync then s.pos >= p && s.line == [] else s.pos > p + |s.line|)
    && n <= |s.done| && forall k :: n <= k < |s.done| ==> s.done[k].at > p
  }

  lemma TakeStaysBeyond(u: Setup, s: Pipeline, b: Byte, tick: nat, x: FL.Faults, p: nat, n: nat)
    requires Shape(u, s) && Beyond(s, p, n)
    ensures Beyond(TakeOn(u, s, b, tick, x).1, p, n)
  {
    hide FL.Write;
  }

  lemma {:induction false} ChunkStaysBeyond(u: Setup, s: Pipeline, chunk: seq<Byte>, tick: nat,
                                            faults: (nat, nat) -> FL.Faults, c: nat, m: nat, p: nat, n: nat)
    requires Shape(u, s) && m <= |chunk| && Beyond(s, p, n)
    ensures Beyond(ChunkOn(u, s, chunk, tick, faults, c, m).1, p, n)
    decreases m
  {
    hide TakeOn;
    hide Beyond;
    if m > 0 {
      ChunkStaysBeyond(u, s, chunk, tick, faults, c, m - 1, p, n);
      var (ret, before) := ChunkOn(u, s, chunk, tick, faults, c, m - 1);
      if ret == FL.Ok { TakeStaysBeyond(u, before, chunk[m - 1], tick, faults(c, m - 1), p, n); }
    }
  }

  lemma OneChunkStaysBeyond(u: Setup, st0: FL.State, s: Pipeline, tick: nat, faults: (nat, nat) -> FL.Faults, c: nat, p: nat, n: nat)
    requires Good(u, st0, s) && s.ring != [] && Beyond(s, p, n)
    ensures Beyond(OneChunk(u, s, tick, faults, c).1, p, n)
  {
    hide Streams;
    hide Configured;
    hide FL.Geometry;
    hide ChunkOn;
    var got := if |s.ring| < CHUNK then |s.ring| else CHUNK;
    var s0 := s.(ring := s.ring[got..]);
    OtherRing(u, st0, s, s.ring[got..]);
    assert s.ring[..got] == s.produced[s.pos..s.pos + got];
    ChunkKeepsReading(u, st0, s0, s.ring[..got], tick, faults, c, got);
    ChunkStaysBeyond(u, s0, s.ring[..got], tick, faults, c, got, p, n);
  }

  lemma {:induction false} FlushStaysBeyond(u: Setup, st0: FL.State, s: Pipeline, tick: nat, faults: (nat, nat) -> FL.Faults,
                                            c: nat, p: nat, n: nat)
    requires Good(u, st0, s) && Beyond(s, p, n)
    ensures Beyond(FlushOn(u, s, tick, faults, c).1, p, n)
    decreases |s.ring|
  {
    hide Streams;
    hide Configured;
    hide FL.Geometry;
    hide OneChunk;
    hide Beyond;
    if s.ring != [] {
      var _ := ChunkKeepsGood(u, st0, s, tick, faults, c);
      OneChunkStaysBeyond(u, st0, s, tick, faults, c, p, n);
      var (ret, s1) := OneChunk(u, s, tick, faults, c);
      if ret == FL.Ok { FlushStaysBeyond(u, st0, s1, tick, faults, c + 1, p, n); }
    }
  }

  lemma {:induction false} RunStaysBeyond(u: Setup, st0: FL.State, s: Pipeline, ops: seq<PipeOp>, p: nat, n: nat)
    requires Good(u, st0, s) && Beyond(s, p, n)
    ensures Beyond(Run(u, s, ops), p, n)
  {
    hide Streams;
    hide Configured;
    hide FL.Geometry;
    hide FlushOn;
    if ops != [] {
      RunStaysBeyond(u, st0, s, ops[..|ops| - 1], p, n);
      var before := Run(u, s, ops[..|ops| - 1]);
      RunKeepsGood(u, st0, s, ops[..|ops| - 1]);
      match ops[|ops| - 1] {
        case OutputOp(_) =>
        case FlushOp(tick, faults) => FlushStaysBeyond(u, st0, before, tick, faults, 0, p, n);
      }
    }
  }

  /** After a fault the next line is dropped too: in whatever follows, between the read position and any
      later record there is a newline. So even when the whole rest stayed in the ring, the first line of
      it, which may be complete, is never written. */
  lemma ResyncDropsNextLine(u: Setup, st0: FL.State, s: Pipeline, ops: seq<PipeOp>, k: nat)
    requires Good(u, st0, s) && s.resync && |s.done| <= k < |Run(u, s, ops).done|
    ensures var s' := Run(u, s, ops);
            && s.pos < s'.done[k].at <= |s'.produced|
            && NEWLINE in s'.produced[s.pos..s'.done[k].at]
  {
    hide Reader;
    hide FL.Run;
    hide Configured;
    hide Run;
    hide FL.Geometry;
    hide InOrder;
    ResyncHoldsNothing(s.produced, s.pos, s.line, s.done, s.faulted, u.max);
    RunKeepsGood(u, st0, s, ops);
    RunStaysBeyond(u, st0, s, ops, s.pos, |s.done|);
    var s' := Run(u, s, ops);
    GoodMeans(u, st0, s');
    NewlineBefore(s'.produced, s'.done, k, s.pos);
  }

  lemma NewlineBefore(stream: seq<Byte>, done: seq<Attempt>, k: nat, p: nat)
    requires InOrder(stream, done, |stream|) && k < |done| && p < done[k].at
    ensures done[k].at <= |stream| && NEWLINE in stream[p..done[k].at]
  {
    var at := done[k].at;
    assert WholeLine(stream, at, at + |done[k].line|);
    assert stream[p..at][at - 1 - p] == NEWLINE;
  }

  /** One input: two lines in the ring, and the driver cannot be opened for the first. The flush returns
      with an empty ring, and the second line is gone. */
  lemma SecondLineIsLost(u: Setup, st0: FL.State, s: Pipeline, tick: nat, faults: (nat, nat) -> FL.Faults)
    requires Good(u, st0, s) && s.ring == [97, NEWLINE, 98, NEWLINE] && s.line == [] && !s.resync
    requires !faults(0, 1).opens
    ensures var (ret, s') := FlushOn(u, s, tick, faults, 0);
            && ret == FL.OpenError && s'.ring == [] && s'.pos == s.pos + 4 == |s'.produced|
            && s'.produced[s.pos..] == [97, NEWLINE, 98, NEWLINE]
            && s'.done == s.done + [Attempt(s.pos, [97, NEWLINE], FL.OpenError, tick, faults(0, 1))]
  {
    hide Reader;
    hide FL.Run;
    hide TakeOn;
    hide ChunkOn;
    hide FL.Geometry;
    var s0, chunk := s.(ring := []), s.ring;
    assert s.ring[4..] == [] && s.ring[..4] == s.ring;
    RoomForByte(s.produced, s.pos, s.line, s.done, s.faulted, u.max);
    assert s.produced[s.pos] == s.produced[s.pos..][0] == 97;
    FirstByteTaken(u, s0, tick, faults(0, 0));
    var s1 := s0.(pos := s.pos + 1, line := [97]);
    OpenFails(u, s1, tick, faults(0, 1));
    var (ret, s2) := TakeOn(u, s1, NEWLINE, tick, faults(0, 1));
    ChunkStops(u, s0, chunk, tick, faults, ret, s2);
  }

  lemma FirstByteTaken(u: Setup, s: Pipeline, tick: nat, x: FL.Faults)
    requires Shape(u, s) && u.max >= 3 && s.line == [] && !s.resync
    ensures TakeOn(u, s, 97, tick, x) == (FL.Ok, s.(pos := s.pos + 1, line := [97]))
  {
    assert [] + [97] == [97];
  }

  lemma OpenFails(u: Setup, s: Pipeline, tick: nat, x: FL.Faults)
    requires Shape(u, s) && Configured(u) && u.max >= 3 && s.line == [97] && !s.resync && s.pos > 0 && !x.opens
    ensures var (ret, s') := TakeOn(u, s, NEWLINE, tick, x);
            && ret == FL.OpenError && s'.pos == s.pos + 1 && s'.resync
            && s'.done == s.done + [Attempt(s.pos - 1, [97, NEWLINE], FL.OpenError, tick, x)]
  {
    assert [97] + [NEWLINE] == [97, NEWLINE];
    ShorterFits(u.c, 2, u.max - 1);
    assert FL.Write(u.c, s.flash, FL.Record([97, NEWLINE], tick), x).0 == FL.OpenError;
  }

  lemma ChunkStops(u: Setup, s: Pipeline, chunk: seq<Byte>, tick: nat, faults: (nat, nat) -> FL.Faults, ret: FL.Ret, s2: Pipeline)
    requires Shape(u, s) && |chunk| >= 2 && ret != FL.Ok
    requires TakeOn(u, s, chunk[0], tick, faults(0, 0)).0 == FL.Ok
    requires TakeOn(u, TakeOn(u, s, chunk[0], tick, faults(0, 0)).1, chunk[1], tick, faults(0, 1)) == (ret, s2)
    ensures ChunkOn(u, s, chunk, tick, faults, 0, |chunk|) == (ret, s2)
  {
    hide TakeOn;
    assert ChunkOn(u, s, chunk, tick, faults, 0, 0) == (FL.Ok, s);
    assert ChunkOn(u, s, chunk, tick, faults, 0, 2) == (ret, s2);
    ChunkEnds(u, s, chunk, tick, faults, 0, 2, |chunk|);
  }

  // ---- The code ----

  class Pipe {
    const log: FlashLogDevice.Log
    const maxLen: nat                // size of the line buffer
    const capacity: nat              // size of the byte ring
    var ring: seq<Byte>
    const buf: array<Byte>
    var len: nat
    var resync: bool
    ghost var pos: nat
    ghost var produced: seq<Byte>
    ghost var done: seq<Attempt>
    ghost var faulted: bool

    ghost function View(): Pipeline
      requires len <= buf.Length
      reads this, buf, log, log.cells
    {
      Pipeline(ring, buf[..len], resync, log.Contents(), pos, produced, done, faulted)
    }

    ghost function Setting(): Setup
      reads log
    {
      Setup(log.Cfg(), maxLen, capacity)
    }

    ghost predicate Valid()
      reads this, buf, log, log.cells, log.cache, log.cache.table
    {
      && log.Valid() && buf as object != log.cells && buf as object != log.cache.table
      && 2 <= maxLen == buf.Length && len < maxLen
    }

    constructor (device: FlashLogDevice.Log, lineSize: nat, ringSize: nat)
      requires device.Valid() && lineSize >= 2
      ensures Valid() && log == device && maxLen == lineSize && capacity == ringSize
      ensures View() == Start(log.Contents())
    {
      hide FlashLogDevice.Log.Valid;
      log, maxLen, capacity := device, lineSize, ringSize;
      ring, buf, len, resync := [], new Byte[lineSize], 0, false;
      pos, produced, done, faulted := 0, [], [], false;
    }

    method Output(text: seq<Byte>)
      requires Valid()
      modifies this
      ensures Valid() && View() == OutputOn(Setting(), old(View()), text)
      ensures if Accepts(Setting(), old(View()), text)
              then ring[..|old(ring)|] == old(ring) && IsCut(text, maxLen, ring[|old(ring)|..]) else View() == old(View())
    {
      hide FlashLogDevice.Log.Valid;
      if |text| == 0 {
        return;
      }
      var n := if |text| < maxLen then |text| else maxLen - 1;
      var block := text[..n];
      if block[n - 1] != NEWLINE {
        block := block[n - 1 := NEWLINE];
      }
      assert block == text[..n - 1] + [NEWLINE];
      if |ring| > capacity || capacity - |ring| < n {
        return;
      }
      ring := ring + block;
      produced := produced + block;
    }

    /** mini_log_flash_clean_all: the line in assembly and the ring are left alone. */
    method CleanAll(opens: bool, o: FL.EraseOutcome) returns (ret: FL.Ret)
      requires Valid()
      modifies this, log`cursor, log.cells
      ensures Valid()
      ensures !log.initialized ==> ret == FL.NotInit && View() == old(View())
      ensures log.initialized ==> (ret, View()) == EraseOn(Setting(), old(View()), opens, o)
    {
      hide FL.Geometry;
      hide FL.Erased;
      ghost var line := buf[..len];
      ret := log.CleanAllCells(opens, o);
      assert buf[..len] == line;
      if ret == FL.Ok {
        resync := false;
      }
      if log.initialized && ret != FL.OpenError {
        done, faulted := [], true;
      }
    }

    /** mini_log_flash_register_cxt, which clears the resync flag even if it refuses. */
    method Register(partition: array<Byte>, opsComplete: bool, sector: nat, gran: nat) returns (ret: FL.Ret)
      requires Valid() && partition as object != log.cache.table && partition as object != buf
      modifies this, log
      ensures Valid() && log.initialized == (ret == FL.Ok)
      ensures ret == FL.Ok ==> View() == Restarted(old(View()), FL.State(partition[..], 0))
      ensures ret != FL.Ok ==> ret == FL.Param && View() == old(View()).(resync := false)
    {
      hide CrcEngine.TableCache.Valid;
      resync := false;
      ret := log.Register(partition, opsComplete, sector, gran);
      if ret == FL.Ok {
        done, faulted := [], true;
      }
    }

    /** Hands the line in the buffer to the record writer. */
    method HandOver(tick: nat, x: FL.Faults, ghost at: nat) returns (ret: FL.Ret)
      requires log.Valid() && log.initialized && buf as object != log.cells && buf as object != log.cache.table
      requires 2 <= maxLen == buf.Length && 0 < len <= maxLen && !resync
      modifies this, log`cursor, log.cells, log.cache, log.cache.table
      ensures Valid() && Shape(Setting(), old(View()))
      ensures var s := old(View());
              var (r, flash) := FL.Write(Setting().c, s.flash, FL.Record(s.line, tick), x);
              && ret == r
              && View() == s.(line := [], resync := DriverFault(r), flash := flash,
                              done := s.done + [Attempt(at, s.line, r, tick, x)], faulted := s.faulted || r != FL.Ok)
    {
      hide FL.Write;
      hide CrcEngine.TableCache.Valid;
      hide FL.Geometry;
      ret := log.WriteRecord(buf[..len], tick, x);
      done := done + [Attempt(at, buf[..len], ret, tick, x)];
      len := 0;
      assert buf[..len] == [];
      if ret != FL.Ok {
        faulted := true;
        if ret == FL.OpenError || ret == FL.EraseError || ret == FL.WriteError {
          resync := true;
        }
      }
    }

    method Append(b: Byte)
      requires Valid()
      modifies this`len, buf
      ensures log.Valid() && len == old(len) + 1
      ensures View() == old(View()).(line := old(View()).line + [b])
    {
      hide FL.Geometry;
      buf[len] := b;
      len := len + 1;
      assert buf[..len] == old(buf[..len]) + [b];
    }

    method TakeByte(b: Byte, tick: nat, x: FL.Faults) returns (ret: FL.Ret)
      requires Valid() && log.initialized
      modifies this, buf, log`cursor, log.cells, log.cache, log.cache.table
      ensures Valid() && Shape(Setting(), old(View())) && (ret, View()) == TakeOn(Setting(), old(View()), b, tick, x)
    {
      hide FL.Write;
      hide FL.Geometry;
      hide FlashLogDevice.Log.Valid;
      hide DriverFault;
      hide Shape;
      ShapeOf();
      ret := FL.Ok;
      ghost var s, u := View(), Setting();
      ghost var at := if len <= pos then pos - len else 0;
      pos := pos + 1;
      if resync {
        if b == NEWLINE {
          resync := false;
        }
        return;
      }
      Append(b);
      if b == NEWLINE || len == buf.Length {
        ret := HandOver(tick, x, at);
      }
    }

    /** The loop over a chunk; it is left at the first record that fails. */
    method TakeChunk(chunk: seq<Byte>, tick: nat, faults: (nat, nat) -> FL.Faults, c: nat) returns (ret: FL.Ret)
      requires Valid() && log.initialized
      modifies this, buf, log`cursor, log.cells, log.cache, log.cache.table
      ensures Valid() && Shape(Setting(), old(View()))
      ensures (ret, View()) == ChunkOn(Setting(), old(View()), chunk, tick, faults, c, |chunk|)
    {
      hide TakeOn;
      hide FlashLogDevice.Log.Valid;
      ret := FL.Ok;
      ghost var u, s := Setting(), View();
      ShapeOf();
      for i := 0 to |chunk|
        invariant Valid() && Setting() == u && ret == FL.Ok
        invariant (FL.Ok, View()) == ChunkOn(u, s, chunk, tick, faults, c, i)
      {
        ret := TakeByte(chunk[i], tick, faults(c, i));
        if ret != FL.Ok {
          ChunkEnds(u, s, chunk, tick, faults, c, i + 1, |chunk|);
          return;
        }
      }
    }

    lemma ShapeOf()
      requires Valid() && log.initialized
      ensures Shape(Setting(), View())
    {
    }

    /** mini_log_flash_flush. `faults(c, i)` is how the driver answers if byte i of chunk c completes a
        record. */
    method Flush(tick: nat, faults: (nat, nat) -> FL.Faults) returns (ret: FL.Ret)
      requires Valid()
      modifies this, buf, log`cursor, log.cells, log.cache, log.cache.table
      ensures Valid()
      ensures !log.initialized ==> ret == FL.NotInit && View() == old(View())
      ensures log.initialized ==> Shape(Setting(), old(View())) && (ret, View()) == FlushOn(Setting(), old(View()), tick, faults, 0)
    {
      hide OneChunk;
      hide FlashLogDevice.Log.Valid;
      hide FL.Geometry;
      if !log.initialized {
        return FL.NotInit;
      }
      ret := FL.Ok;
      var chunks := 0;
      ShapeOf();
      ghost var u := Setting();
      ghost var goal := FlushOn(u, View(), tick, faults, 0);
      while true
        invariant Valid() && Setting() == u && Shape(u, View()) && ret == FL.Ok
        invariant goal == FlushOn(u, View(), tick, faults, chunks)
        decreases |ring|
      {
        if |ring| == 0 {
          break;
        }
        ret := TakeOne(tick, faults, chunks);
        chunks := chunks + 1;
        if ret != FL.Ok {
          return;
        }
      }
    }

    /** One turn of the flush loop. */
    method TakeOne(tick: nat, faults: (nat, nat) -> FL.Faults, c: nat) returns (ret: FL.Ret)
      requires Valid() && log.initialized && ring != []
      modifies this, buf, log`cursor, log.cells, log.cache, log.cache.table
      ensures Valid() && Shape(Setting(), old(View())) && (ret, View()) == OneChunk(Setting(), old(View()), tick, faults, c)
    {
      hide ChunkOn;
      hide FlashLogDevice.Log.Valid;
      hide FL.Geometry;
      ShapeOf();
      var got := if |ring| < CHUNK then |ring| else CHUNK;
      ghost var before := pos;
      var chunk := ring[..got];
      ring := ring[got..];
      ret := TakeChunk(chunk, tick, faults, c);
      pos := before + got;
    }
  }

  lemma {:induction false} ChunkEnds(u: Setup, s: Pipeline, chunk: seq<Byte>, tick: nat, faults: (nat, nat) -> FL.Faults,
                                     c: nat, n: nat, m: nat)
    requires Shape(u, s) && n <= m <= |chunk| && ChunkOn(u, s, chunk, tick, faults, c, n).0 != FL.Ok
    ensures ChunkOn(u, s, chunk, tick, faults, c, m) == ChunkOn(u, s, chunk, tick, faults, c, n)
    decreases m
  {
    hide TakeOn;
    if n < m { ChunkEnds(u, s, chunk, tick, faults, c, n, m - 1); }
  }
}
