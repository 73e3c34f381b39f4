/** The flash record log as functions on values: what a record write, a power
    loss and the power-on scan do to the partition and to the write cursor. */
module FlashLog {
  import opened Bits
  import opened LittleEndian

  const ERASED: Byte := 0xFF
  const MAGIC: nat := 4
  const HEADER: nat := 10
  const DEFAULT_ALIGN: nat := 4

  /** Partition geometry as registered, plus two compile-time settings: the staging
      buffer size and the frame checksum. */
  datatype Config = Config(total: nat, sector: nat, gran: nat, ring: nat, crc: seq<Byte> -> nat)

  /** What registration accepts; the ring size is a power of two held in 16 bits. */
  ghost predicate Geometry(c: Config) {
    && c.total > 0 && c.sector > 0 && c.total % c.sector == 0
    && (c.gran == 0 || IsPow2(c.gran))
    && c.ring <= 0x8000
  }

  function Align(c: Config): (a: nat)
    ensures a > 0
  {
    if c.gran > 0 then c.gran else DEFAULT_ALIGN
  }

  /** x rounded up to a multiple of s. */
  function RoundUp(x: nat, s: nat): (r: nat)
    requires s > 0
    ensures x <= r < x + s
  {
    var y := x + s - 1;
    assert y == (y / s) * s + y % s;
    (y / s) * s
  }

  lemma RoundUpMultiple(x: nat, s: nat)
    requires s > 0
    ensures RoundUp(x, s) % s == 0
    ensures x % s == 0 ==> RoundUp(x, s) == x
    ensures x % s != 0 ==> RoundUp(x, s) == (x / s + 1) * s
  {
    var y := x + s - 1;
    ModOfMultiple(y / s, s);
    if x % s == 0 {
      DivModUnique(y, s, x / s, s - 1);
    } else {
      DivModUnique(y, s, x / s + 1, x % s - 1);
    }
  }

  lemma RoundUpLeast(x: nat, s: nat, m: nat)
    requires s > 0 && m % s == 0 && x <= m
    ensures RoundUp(x, s) <= m
  {
    var y, k := x + s - 1, m / s;
    if k < y / s {
      MulMono(s, k + 1, y / s);
    } else {
      MulMono(s, y / s, k);
    }
  }

  /** The C idiom (n + (a - 1)) & ~(a - 1) for a power of two a, in any word wide enough. */
  lemma AlignIsMask(n: nat, k: nat, width: nat)
    requires k <= width && n + Pow2(k) - 1 < Pow2(width)
    ensures Pow2(k) - 1 < Pow2(width)
    ensures And(n + (Pow2(k) - 1), Not(Pow2(k) - 1, width)) == RoundUp(n, Pow2(k))
  {
    var p := Pow2(k);
    var y := n + (p - 1);
    AndHighMask(y, k, width);
    assert Low(y, k) == y % p by { LowIsMod(y, k); }
    DropRemainder(y, p);
  }

  lemma {:induction false} Pow2Exceeds(n: nat)
    ensures n < Pow2(n)
  {
    if n > 0 { Pow2Exceeds(n - 1); }
  }

  /** The mask expression on words wide enough for the sum. */
  lemma MaskRoundsUp(n: nat, a: nat)
    requires IsPow2(a)
    ensures a - 1 < Pow2(n + a) && And(n + (a - 1), Not(a - 1, n + a)) == RoundUp(n, a)
  {
    hide Pow2;
    hide And;
    var k: nat :| a == Pow2(k);
    Pow2Exceeds(k);
    Pow2Exceeds(n + a);
    AlignIsMask(n, k, n + a);
  }

  lemma DropRemainder(y: nat, p: nat)
    requires p > 0
    ensures y - y % p == (y / p) * p
  {
  }

  // ---- Frames ----

  datatype Record = Record(data: seq<Byte>, tick: nat)

  function Fill(n: nat): (s: seq<Byte>)
    ensures |s| == n && forall i :: 0 <= i < n ==> s[i] == ERASED
  {
    seq(n, _ => ERASED)
  }

  function FrameCrc(c: Config, head: seq<Byte>, payload: seq<Byte>): nat {
    c.crc(head + payload) % 0x1_0000
  }

  /** magic, length and tick: the part of the header the checksum covers. */
  function Head(r: Record): (s: seq<Byte>)
    ensures |s| == 8
  {
    Le16(MAGIC) + Le16(|r.data|) + Le32(r.tick)
  }

  function WriteLen(c: Config, n: nat): (l: nat)
    ensures HEADER + n <= l
  {
    RoundUp(HEADER + n, Align(c))
  }

  function Encode(c: Config, r: Record): (s: seq<Byte>)
    ensures |s| == WriteLen(c, |r.data|)
  {
    Head(r) + Le16(FrameCrc(c, Head(r), r.data)) + r.data + Fill(WriteLen(c, |r.data|) - HEADER - |r.data|)
  }

  predicate Fits(c: Config, n: nat) {
    0 < n && WriteLen(c, n) <= c.ring && WriteLen(c, n) <= c.total
  }

  // ---- The device: erasing sets bytes, programming only clears bits ----

  lemma {:induction false} AndBound(x: nat, y: nat)
    ensures And(x, y) <= x
  {
    if x > 0 && y > 0 { AndBound(x / 2, y / 2); }
  }

  function ProgramByte(cell: Byte, value: Byte): Byte {
    AndBound(value, cell);
    And(value, cell)
  }

  lemma ProgramErased(value: Byte)
    ensures ProgramByte(ERASED, value) == value
  {
    assert Pow2(8) == 256;
    AndLowMask(value, 8);
    LowOfSmall(value, 8);
  }

  /** The first k bytes of data programmed at off; the rest of the partition untouched. */
  function Programmed(f: seq<Byte>, off: nat, data: seq<Byte>, k: nat): (r: seq<Byte>)
    requires off + k <= |f| && k <= |data|
    ensures |r| == |f|
  {
    seq(|f|, i requires 0 <= i < |f| => if off <= i < off + k then ProgramByte(f[i], data[i - off]) else f[i])
  }

  /** A failing erase may leave anything in the range it was erasing. */
  datatype EraseOutcome = Done | Failed(garbage: seq<Byte>)

  function Erased(f: seq<Byte>, from: nat, to: nat, o: EraseOutcome): (r: seq<Byte>)
    ensures |r| == |f|
  {
    seq(|f|, i requires 0 <= i < |f| =>
      if !(from <= i < to) then f[i]
      else if o.Done? then ERASED
      else if i < |o.garbage| then o.garbage[i] else f[i])
  }

  ghost predicate Blank(f: seq<Byte>, from: nat, to: nat) {
    to <= |f| && forall i :: from <= i < to ==> f[i] == ERASED
  }

  // ---- Writing a record ----

  datatype State = State(flash: seq<Byte>, cursor: nat)

  datatype Ret = Ok | NotInit | Param | TooLong | OpenError | EraseError | WriteError | ReadError

  /** What the driver answers during one record write. A failing write programs nothing. */
  datatype Faults = Faults(opens: bool, erase: EraseOutcome, writes: bool, ahead: EraseOutcome)

  const NO_FAULTS := Faults(true, Done, true, Done)

  /** Where a record of n bytes goes: wrapped to the start when it does not fit the tail. */
  function Start(c: Config, cursor: nat, n: nat): nat {
    if cursor + WriteLen(c, n) > c.total then 0 else cursor
  }

  function EraseFrom(c: Config, start: nat): nat
    requires c.sector > 0
  {
    if start % c.sector == 0 then start else (start / c.sector + 1) * c.sector
  }

  function EraseTo(c: Config, end: nat): nat
    requires c.sector > 0
  {
    RoundUp(end, c.sector)
  }

  /** The partition when programming begins. */
  function ReadyToProgram(c: Config, st: State, n: nat, o: EraseOutcome): (f: seq<Byte>)
    requires c.sector > 0
    ensures |f| == |st.flash|
  {
    var start := Start(c, st.cursor, n);
    Erased(st.flash, EraseFrom(c, start), EraseTo(c, start + WriteLen(c, n)), o)
  }

  predicate NeedsErase(c: Config, st: State, n: nat)
    requires c.sector > 0
  {
    var start := Start(c, st.cursor, n);
    EraseTo(c, start + WriteLen(c, n)) > EraseFrom(c, start)
  }

  /** After a full program step: the cursor moves on and a sector it just reached is erased ahead. */
  function Advance(c: Config, f: seq<Byte>, end: nat, ahead: EraseOutcome): (st: State)
    requires c.sector > 0
    ensures |st.flash| == |f| && st.cursor == end
  {
    State(if end < c.total && end % c.sector == 0 then Erased(f, end, end + c.sector, ahead) else f, end)
  }

  /** Erase, program and erase ahead, for a frame that goes to start. */
  function Store(c: Config, f: seq<Byte>, start: nat, frame: seq<Byte>, x: Faults): (res: (Ret, State))
    requires c.sector > 0 && start + |frame| <= |f|
    ensures |res.1.flash| == |f|
  {
    var end := start + |frame|;
    var from, to := EraseFrom(c, start), EraseTo(c, end);
    if !x.opens then (OpenError, State(f, start))
    else
      var g := if to > from then Erased(f, from, to, x.erase) else f;
      if to > from && x.erase.Failed? then (EraseError, State(g, start))
      else if !x.writes then (WriteError, State(g, start))
      else (Ok, Advance(c, Programmed(g, start, frame, |frame|), end, x.ahead))
  }

  function Write(c: Config, st: State, r: Record, x: Faults): (res: (Ret, State))
    requires Geometry(c) && |st.flash| == c.total && st.cursor <= c.total
    ensures |res.1.flash| == c.total && res.1.cursor <= c.total
  {
    var n := |r.data|;
    var len := WriteLen(c, n);
    if n == 0 then (Param, st)
    else if len > c.ring || len > c.total then (TooLong, st)
    else Store(c, st.flash, Start(c, st.cursor, n), Encode(c, r), x)
  }

  /** The write reaches its program step. */
  predicate Programs(c: Config, st: State, r: Record, x: Faults)
    requires c.sector > 0
  {
    Fits(c, |r.data|) && x.opens && !(NeedsErase(c, st, |r.data|) && x.erase.Failed?)
  }

  /** Everything about to be programmed is erased, and every erase stays in the partition. */
  ghost predicate StepSafe(c: Config, st: State, r: Record, x: Faults)
    requires Geometry(c) && |st.flash| == c.total
  {
    var n := |r.data|;
    var start := Start(c, st.cursor, n);
    Fits(c, n) ==>
      && EraseFrom(c, start) <= c.total && EraseTo(c, start + WriteLen(c, n)) <= c.total
      && ((start + WriteLen(c, n) < c.total && (start + WriteLen(c, n)) % c.sector == 0) ==>
            start + WriteLen(c, n) + c.sector <= c.total)
      && (Programs(c, st, r, x) ==>
            Blank(ReadyToProgram(c, st, n, Done), start, start + WriteLen(c, n)))
  }

  /** The invariant: from the cursor to the end of its sector there is only erased flash. */
  ghost predicate CursorClear(c: Config, st: State)
    requires c.sector > 0
  {
    |st.flash| == c.total && st.cursor <= c.total && Blank(st.flash, st.cursor, RoundUp(st.cursor, c.sector))
  }

  lemma EraseFromIsRoundUp(c: Config, start: nat)
    requires c.sector > 0
    ensures EraseFrom(c, start) == RoundUp(start, c.sector)
  {
    RoundUpMultiple(start, c.sector);
  }

  /** Where the plan of one record lies. */
  lemma PlanBounds(c: Config, cursor: nat, n: nat)
    requires Geometry(c) && cursor <= c.total && Fits(c, n)
    ensures var start := Start(c, cursor, n);
            var end := start + WriteLen(c, n);
            && start <= EraseFrom(c, start) <= EraseTo(c, end) <= c.total
            && end <= EraseTo(c, end)
            && (end % c.sector == 0 ==> EraseTo(c, end) == end)
            && (end < c.total && end % c.sector == 0 ==> end + c.sector <= c.total)
  {
    var start := Start(c, cursor, n);
    var end := start + WriteLen(c, n);
    EraseFromIsRoundUp(c, start);
    RoundUpMultiple(start, c.sector);
    RoundUpMultiple(end, c.sector);
    RoundUpLeast(end, c.sector, c.total);
    RoundUpLeast(start, c.sector, RoundUp(end, c.sector));
    if end < c.total && end % c.sector == 0 {
      NextMultiple(end, c.total, c.sector);
    }
  }

  lemma NextMultiple(a: nat, b: nat, s: nat)
    requires s > 0 && a % s == 0 && b % s == 0 && a < b
    ensures a + s <= b
  {
    if b / s <= a / s {
      MulMono(s, b / s, a / s);
    } else {
      MulMono(s, a / s + 1, b / s);
    }
  }

  /** A successful erase leaves the whole span of the frame, and the rest of its last sector, blank. */
  lemma EraseClears(c: Config, st: State, n: nat)
    requires Geometry(c) && CursorClear(c, st) && Fits(c, n)
    ensures var start := Start(c, st.cursor, n);
            Blank(ReadyToProgram(c, st, n, Done), start, EraseTo(c, start + WriteLen(c, n)))
  {
    PlanBounds(c, st.cursor, n);
    var start := Start(c, st.cursor, n);
    EraseFromIsRoundUp(c, start);
    RoundUpMultiple(0, c.sector);
  }

  lemma ProgramsFrame(f: seq<Byte>, off: nat, data: seq<Byte>, k: nat)
    requires off + k <= |f| && k <= |data| && Blank(f, off, off + k)
    ensures Programmed(f, off, data, k)[off..off + k] == data[..k]
  {
    forall i | 0 <= i < k
      ensures Programmed(f, off, data, k)[off + i] == data[i]
    {
      ProgramErased(data[i]);
    }
  }

  /** One write, with any driver answers, programs only erased bytes and keeps the invariant. */
  lemma WriteKeepsCursorClear(c: Config, st: State, r: Record, x: Faults)
    requires Geometry(c) && CursorClear(c, st)
    ensures StepSafe(c, st, r, x)
    ensures CursorClear(c, Write(c, st, r, x).1)
  {
    hide Encode;
    hide ProgramByte;
    hide WriteLen;
    var n := |r.data|;
    if Fits(c, n) {
      PlanBounds(c, st.cursor, n);
      EraseClears(c, st, n);
      var start := Start(c, st.cursor, n);
      EraseFromIsRoundUp(c, start);
      RoundUpMultiple(0, c.sector);
      RoundUpMultiple(start + WriteLen(c, n), c.sector);
    }
  }

  // ---- Runs of writes ----

  datatype Op = Op(record: Record, faults: Faults)

  function Run(c: Config, st: State, ops: seq<Op>): (r: State)
    requires Geometry(c) && |st.flash| == c.total && st.cursor <= c.total
    ensures |r.flash| == c.total && r.cursor <= c.total
    decreases |ops|
  {
    if ops == [] then st
    else
      var last := ops[|ops| - 1];
      Write(c, Run(c, st, ops[..|ops| - 1]), last.record, last.faults).1
  }

  /** Every write of the run is safe in the state it meets. */
  ghost predicate RunSafe(c: Config, st: State, ops: seq<Op>)
    requires Geometry(c) && |st.flash| == c.total && st.cursor <= c.total
  {
    forall k :: 0 <= k < |ops| ==> StepSafe(c, Run(c, st, ops[..k]), ops[k].record, ops[k].faults)
  }

  lemma {:induction false} RunKeepsCursorClear(c: Config, st: State, ops: seq<Op>)
    requires Geometry(c) && CursorClear(c, st)
    ensures CursorClear(c, Run(c, st, ops))
    decreases |ops|
  {
    if ops != [] {
      var front, last := ops[..|ops| - 1], ops[|ops| - 1];
      RunKeepsCursorClear(c, st, front);
      WriteKeepsCursorClear(c, Run(c, st, front), last.record, last.faults);
    }
  }

  /** From any clear cursor, every write of every run is safe. */
  lemma RunsAreSafe(c: Config, st: State, ops: seq<Op>)
    requires Geometry(c) && CursorClear(c, st)
    ensures RunSafe(c, st, ops)
  {
    forall k | 0 <= k < |ops|
      ensures StepSafe(c, Run(c, st, ops[..k]), ops[k].record, ops[k].faults)
    {
      RunKeepsCursorClear(c, st, ops[..k]);
      WriteKeepsCursorClear(c, Run(c, st, ops[..k]), ops[k].record, ops[k].faults);
    }
  }

  /** Registration over any flash image starts with a clear cursor: every run from it is safe. */
  lemma RegisteredRunsAreSafe(c: Config, image: seq<Byte>, ops: seq<Op>)
    requires Geometry(c) && |image| == c.total
    ensures RunSafe(c, State(image, 0), ops)
  {
    RoundUpMultiple(0, c.sector);
    RunsAreSafe(c, State(image, 0), ops);
  }

  // ---- The power-on scan ----

  type Positive = n: nat | n > 0 witness 1

  datatype Verdict = Unwritten | Dirty | Frame(advance: Positive)

  /** What the scan makes of the bytes at off. */
  function Inspect(c: Config, f: seq<Byte>, off: nat): Verdict
    requires off + HEADER <= |f| == c.total
  {
    var len := U16(f[off + 2], f[off + 3]);
    if U16(f[off], f[off + 1]) != MAGIC then
      if forall i :: off <= i < off + HEADER ==> f[i] == ERASED then Unwritten else Dirty
    else if len == 0 then Dirty
    else if HEADER + len > c.ring || off + HEADER + len > c.total then Dirty
    else if FrameCrc(c, f[off..off + 8], f[off + HEADER..off + HEADER + len]) != U16(f[off + 8], f[off + 9]) then Dirty
    else Frame(WriteLen(c, len))
  }

  /** What the scan would make of each offset where a header still fits. */
  function Verdicts(c: Config, f: seq<Byte>): (v: seq<Verdict>)
    requires |f| == c.total
    ensures |v| == c.total
  {
    seq(c.total, off requires 0 <= off < c.total =>
      if off + HEADER <= c.total then Inspect(c, f, off) else Unwritten)
  }

  lemma VerdictAt(c: Config, f: seq<Byte>, off: nat)
    requires off + HEADER <= |f| == c.total
    ensures Verdicts(c, f)[off] == Inspect(c, f, off)
  {
  }

  datatype ScanEnd = ScanEnd(frames: nat, offset: nat, dirty: bool)

  /** The scan from off, having counted `frames` so far, over the given verdicts. */
  function Scan(v: seq<Verdict>, off: nat, frames: nat): ScanEnd
    decreases |v| - off
  {
    if off + HEADER > |v| then ScanEnd(frames, off, false)
    else match v[off]
      case Unwritten => ScanEnd(frames, off, false)
      case Dirty => ScanEnd(frames, off, true)
      case Frame(n) => Scan(v, off + n, frames + 1)
  }

  /** The header at off is such that the scan goes on to read the payload. */
  predicate NeedsPayload(c: Config, f: seq<Byte>, off: nat)
    requires off + HEADER <= |f| == c.total
  {
    var len := U16(f[off + 2], f[off + 3]);
    U16(f[off], f[off + 1]) == MAGIC && len != 0 && HEADER + len <= c.ring && off + HEADER + len <= c.total
  }

  datatype Reading = Broken(frames: nat) | Ended(e: ScanEnd)

  /** The scan with a driver that fails to read at the addresses in `bad`. */
  function ScanReading(c: Config, f: seq<Byte>, off: nat, frames: nat, bad: set<nat>): Reading
    requires |f| == c.total
    decreases c.total - off
  {
    if off + HEADER > c.total then Ended(ScanEnd(frames, off, false))
    else if off in bad || (NeedsPayload(c, f, off) && off + HEADER in bad) then Broken(frames)
    else match Inspect(c, f, off)
      case Unwritten => Ended(ScanEnd(frames, off, false))
      case Dirty => Ended(ScanEnd(frames, off, true))
      case Frame(n) => ScanReading(c, f, off + n, frames + 1, bad)
  }

  /** A header is unwritten exactly when it is blank, and a frame exactly when its payload is read and matches the
      checksum; the cursor then goes on by the aligned length. */
  lemma VerdictIs(c: Config, f: seq<Byte>, off: nat)
    requires off + HEADER <= |f| == c.total
    ensures Inspect(c, f, off).Unwritten? <==> Blank(f, off, off + HEADER)
    ensures var len := U16(f[off + 2], f[off + 3]);
            && (NeedsPayload(c, f, off) ==> off + HEADER + len <= c.total)
            && (Inspect(c, f, off).Frame? <==>
                  && NeedsPayload(c, f, off)
                  && FrameCrc(c, f[off..off + 8], f[off + HEADER..off + HEADER + len]) == U16(f[off + 8], f[off + 9]))
            && (Inspect(c, f, off).Frame? ==> Inspect(c, f, off).advance == WriteLen(c, len))
  {
    hide FrameCrc;
    hide RoundUp;
  }

  /** A scan that no read broke off is the scan. */
  lemma {:induction false} ScanUnbroken(c: Config, f: seq<Byte>, off: nat, frames: nat, bad: set<nat>)
    requires |f| == c.total
    ensures ScanReading(c, f, off, frames, bad).Ended? ==>
              ScanReading(c, f, off, frames, bad).e == Scan(Verdicts(c, f), off, frames)
    ensures bad == {} ==> ScanReading(c, f, off, frames, bad).Ended?
    decreases c.total - off
  {
    hide Inspect;
    hide NeedsPayload;
    if off + HEADER <= c.total {
      VerdictAt(c, f, off);
      var v := Inspect(c, f, off);
      if v.Frame? { ScanUnbroken(c, f, off + v.advance, frames + 1, bad); }
    }
  }

  /** The cursor the scan leaves: a dirty stop is moved on to a sector boundary. */
  function CursorOf(c: Config, e: ScanEnd): nat
    requires c.sector > 0
  {
    var off := if e.dirty then RoundUp(e.offset, c.sector) else e.offset;
    if off > c.total then 0 else off
  }

  function Recover(c: Config, f: seq<Byte>): (r: (nat, State))
    requires Geometry(c) && |f| == c.total
  {
    var e := Scan(Verdicts(c, f), 0, 0);
    (e.frames, State(f, CursorOf(c, e)))
  }

  // ---- The records of the current lap ----

  ghost predicate GoodRecord(c: Config, r: Record) {
    Fits(c, |r.data|) && r.tick < 0x1_0000_0000
  }

  function LapLen(c: Config, lap: seq<Record>): nat
  {
    if lap == [] then 0 else LapLen(c, lap[..|lap| - 1]) + WriteLen(c, |lap[|lap| - 1].data|)
  }

  /** The bytes a lap of records occupies from the start of the partition. */
  function Image(c: Config, lap: seq<Record>): (img: seq<Byte>)
    ensures |img| == LapLen(c, lap)
  {
    if lap == [] then [] else Image(c, lap[..|lap| - 1]) + Encode(c, lap[|lap| - 1])
  }

  /** The lap lies at the start of the partition, back to back up to the cursor. */
  ghost predicate Holds(c: Config, st: State, lap: seq<Record>) {
    && (forall r :: r in lap ==> GoodRecord(c, r))
    && st.cursor <= |st.flash|
    && st.flash[..st.cursor] == Image(c, lap)
  }

  /** How one write changes the lap: a wrap starts a new one, success appends. */
  function NextLap(c: Config, st: State, lap: seq<Record>, op: Op): seq<Record>
    requires Geometry(c) && |st.flash| == c.total && st.cursor <= c.total
  {
    var n := |op.record.data|;
    var kept := if Fits(c, n) && Start(c, st.cursor, n) != st.cursor then [] else lap;
    if Write(c, st, op.record, op.faults).0 == Ok then kept + [op.record] else kept
  }

  /** The fields of an encoded frame. */
  lemma EncodeLayout(c: Config, r: Record)
    requires |r.data| < 0x1_0000
    ensures var e, n := Encode(c, r), |r.data|;
            && e[..8] == Head(r)
            && U16(e[0], e[1]) == MAGIC && U16(e[2], e[3]) == n
            && U16(e[8], e[9]) == FrameCrc(c, Head(r), r.data)
            && e[HEADER..HEADER + n] == r.data
  {
    var e, h, k := Encode(c, r), Head(r), Le16(FrameCrc(c, Head(r), r.data));
    assert e[..8] == h;
    assert e[0] == h[0] && e[1] == h[1] && e[2] == h[2] && e[3] == h[3];
    assert e[8] == k[0] && e[9] == k[1];
    Le16RoundTrip(|r.data|);
    Le16RoundTrip(FrameCrc(c, h, r.data));
  }

  /** Header and data in place are recognised, with exactly the length they were written with. */
  lemma FrameScans(c: Config, f: seq<Byte>, off: nat, r: Record)
    requires |f| == c.total && 0 < |r.data| && HEADER + |r.data| <= c.ring <= 0x8000
    requires off + HEADER + |r.data| <= |f| && f[off..off + HEADER + |r.data|] == Encode(c, r)[..HEADER + |r.data|]
    ensures Inspect(c, f, off) == Frame(WriteLen(c, |r.data|))
  {
    var e, n := Encode(c, r)[..HEADER + |r.data|], |r.data|;
    EncodeLayout(c, r);
    assert e[0..8] == Head(r) && e[HEADER..HEADER + n] == r.data;
    hide Encode;
    SliceOf(f, off, e, 0, 8);
    SliceOf(f, off, e, HEADER, HEADER + n);
    SliceOf(f, off, e, 0, HEADER);
    assert forall i :: 0 <= i < HEADER ==> f[off..off + HEADER][i] == e[..HEADER][i];
    assert f[off] == e[0] && f[off + 1] == e[1] && f[off + 2] == e[2] && f[off + 3] == e[3];
    assert f[off + 8] == e[8] && f[off + 9] == e[9];
  }

  lemma EncodedFrameScans(c: Config, f: seq<Byte>, off: nat, r: Record)
    requires Geometry(c) && |f| == c.total && GoodRecord(c, r)
    requires off + |Encode(c, r)| <= |f| && f[off..off + |Encode(c, r)|] == Encode(c, r)
    ensures Inspect(c, f, off) == Frame(WriteLen(c, |r.data|))
  {
    SliceOf(f, off, Encode(c, r), 0, HEADER + |r.data|);
    FrameScans(c, f, off, r);
  }

  /** The verdicts see every frame of the lap where it was laid. */
  ghost predicate SeesLap(c: Config, v: seq<Verdict>, lap: seq<Record>) {
    lap == [] ||
    var off, n := LapLen(c, lap[..|lap| - 1]), WriteLen(c, |lap[|lap| - 1].data|);
    SeesLap(c, v, lap[..|lap| - 1]) && off + n <= |v| && v[off] == Frame(n)
  }

  lemma {:induction false} LapIsSeen(c: Config, f: seq<Byte>, lap: seq<Record>)
    requires Geometry(c) && |f| == c.total
    requires forall r :: r in lap ==> GoodRecord(c, r)
    requires LapLen(c, lap) <= |f| && f[..LapLen(c, lap)] == Image(c, lap)
    ensures SeesLap(c, Verdicts(c, f), lap)
  {
    if lap != [] {
      var front, last := lap[..|lap| - 1], lap[|lap| - 1];
      var off, e := LapLen(c, front), Encode(c, last);
      assert f[..off] == Image(c, front) && f[off..off + |e|] == e by {
        assert f[..off + |e|] == Image(c, front) + e;
        assert f[off..off + |e|] == f[..off + |e|][off..];
      }
      LapIsSeen(c, f, front);
      EncodedFrameScans(c, f, off, last);
    }
  }

  /** The scan walks over a whole lap, frame by frame, counting each. */
  lemma {:induction false} ScanSkipsLap(c: Config, v: seq<Verdict>, lap: seq<Record>)
    requires SeesLap(c, v, lap)
    ensures Scan(v, 0, 0) == Scan(v, LapLen(c, lap), |lap|)
  {
    if lap != [] {
      ScanSkipsLap(c, v, lap[..|lap| - 1]);
    }
  }

  lemma LapSkipped(c: Config, f: seq<Byte>, lap: seq<Record>)
    requires Geometry(c) && |f| == c.total
    requires forall r :: r in lap ==> GoodRecord(c, r)
    requires LapLen(c, lap) <= |f| && f[..LapLen(c, lap)] == Image(c, lap)
    ensures Scan(Verdicts(c, f), 0, 0) == Scan(Verdicts(c, f), LapLen(c, lap), |lap|)
  {
    LapIsSeen(c, f, lap);
    ScanSkipsLap(c, Verdicts(c, f), lap);
  }

  /** The state a successful write leaves, from the blank span it programs. */
  lemma WriteOk(c: Config, st: State, r: Record, x: Faults)
    requires Geometry(c) && CursorClear(c, st) && Write(c, st, r, x).0 == Ok
    ensures var n := |r.data|;
            var start := Start(c, st.cursor, n);
            && Fits(c, n) && start + WriteLen(c, n) <= c.total
            && Write(c, st, r, x).1
               == Advance(c, Programmed(ReadyToProgram(c, st, n, Done), start, Encode(c, r), WriteLen(c, n)),
                          start + WriteLen(c, n), x.ahead)
  {
    hide Encode;
    hide Programmed;
    hide Erased;
    hide RoundUp;
    hide Advance;
    hide Blank;
    var n := |r.data|;
    PlanBounds(c, st.cursor, n);
    var start := Start(c, st.cursor, n);
    StoreOk(c, st.flash, start, Encode(c, r), x);
  }

  /** A store that succeeded, as if the erase had always been called for. */
  lemma StoreOk(c: Config, f: seq<Byte>, start: nat, frame: seq<Byte>, x: Faults)
    requires c.sector > 0 && start + |frame| <= |f| && Store(c, f, start, frame, x).0 == Ok
    ensures var ready := Erased(f, EraseFrom(c, start), EraseTo(c, start + |frame|), Done);
            Store(c, f, start, frame, x).1 == Advance(c, Programmed(ready, start, frame, |frame|), start + |frame|, x.ahead)
  {
    hide Programmed;
    hide RoundUp;
    hide Advance;
    EraseNothing(f, EraseFrom(c, start), EraseTo(c, start + |frame|));
    hide Erased;
  }

  lemma EraseNothing(f: seq<Byte>, from: nat, to: nat)
    ensures to <= from ==> Erased(f, from, to, Done) == f
  {
  }

  /** Nothing below the start of the frame changes, whatever the driver answers. */
  lemma WriteKeepsPrefix(c: Config, st: State, r: Record, x: Faults)
    requires Geometry(c) && CursorClear(c, st) && Fits(c, |r.data|)
    ensures var start := Start(c, st.cursor, |r.data|);
            Write(c, st, r, x).1.flash[..start] == st.flash[..start]
  {
    PlanBounds(c, st.cursor, |r.data|);
  }

  /** After a successful write the frame stands, byte for byte, where the cursor was. */
  lemma FrameInPlace(c: Config, st: State, r: Record, x: Faults)
    requires Geometry(c) && CursorClear(c, st) && Write(c, st, r, x).0 == Ok
    ensures var start := Start(c, st.cursor, |r.data|);
            && start + WriteLen(c, |r.data|) == Write(c, st, r, x).1.cursor
            && Write(c, st, r, x).1.flash[start..start + WriteLen(c, |r.data|)] == Encode(c, r)
  {
    hide Write;
    hide Encode;
    hide ReadyToProgram;
    hide WriteLen;
    hide Start;
    hide Geometry;
    var n := |r.data|;
    var start, len, e := Start(c, st.cursor, n), WriteLen(c, n), Encode(c, r);
    WriteOk(c, st, r, x);
    PlanBounds(c, st.cursor, n);
    EraseClears(c, st, n);
    var f := ReadyToProgram(c, st, n, Done);
    ProgramsFrame(f, start, e, len);
    var g := Programmed(f, start, e, len);
    assert Advance(c, g, start + len, x.ahead).flash[start..start + len] == g[start..start + len];
    assert e[..len] == e;
  }

  lemma AppendsToLap(c: Config, st: State, lap: seq<Record>, start: nat, r: Record)
    requires (forall q :: q in lap ==> GoodRecord(c, q)) && GoodRecord(c, r)
    requires start <= st.cursor <= |st.flash| && st.flash[..start] == Image(c, lap)
    requires st.flash[start..st.cursor] == Encode(c, r)
    ensures Holds(c, st, lap + [r])
  {
    assert (lap + [r])[..|lap|] == lap;
    assert st.flash[..st.cursor] == st.flash[..start] + st.flash[start..st.cursor];
  }

  /** Every write, with any driver answers, keeps the lap readable from the start of the partition. */
  lemma WriteKeepsLap(c: Config, st: State, lap: seq<Record>, op: Op)
    requires Geometry(c) && CursorClear(c, st) && Holds(c, st, lap) && op.record.tick < 0x1_0000_0000
    ensures Holds(c, Write(c, st, op.record, op.faults).1, NextLap(c, st, lap, op))
  {
    var r, x := op.record, op.faults;
    if Fits(c, |r.data|) {
      var start := Start(c, st.cursor, |r.data|);
      var kept := if start != st.cursor then [] else lap;
      var st' := Write(c, st, r, x).1;
      assert st'.flash[..start] == Image(c, kept) by { WriteKeepsPrefix(c, st, r, x); }
      if Write(c, st, r, x).0 == Ok {
        FrameInPlace(c, st, r, x);
        AppendsToLap(c, st', kept, start, r);
      } else {
        assert st'.cursor == start;
      }
    }
  }

  function LapOf(c: Config, st: State, lap: seq<Record>, ops: seq<Op>): seq<Record>
    requires Geometry(c) && |st.flash| == c.total && st.cursor <= c.total
    decreases |ops|
  {
    if ops == [] then lap
    else
      var front := ops[..|ops| - 1];
      NextLap(c, Run(c, st, front), LapOf(c, st, lap, front), ops[|ops| - 1])
  }

  ghost predicate TicksFit(ops: seq<Op>) {
    forall op :: op in ops ==> op.record.tick < 0x1_0000_0000
  }

  lemma {:induction false} RunKeepsLap(c: Config, st: State, lap: seq<Record>, ops: seq<Op>)
    requires Geometry(c) && CursorClear(c, st) && Holds(c, st, lap) && TicksFit(ops)
    ensures Holds(c, Run(c, st, ops), LapOf(c, st, lap, ops))
    decreases |ops|
  {
    if ops != [] {
      var front, last := ops[..|ops| - 1], ops[|ops| - 1];
      RunKeepsLap(c, st, lap, front);
      RunKeepsCursorClear(c, st, front);
      assert last in ops;
      WriteKeepsLap(c, Run(c, st, front), LapOf(c, st, lap, front), last);
    }
  }

  // ---- Recovery of an intact log ----

  /** The cursor's sector is blank from the cursor on, also when the cursor opens a new sector. */
  ghost predicate BlankAhead(c: Config, st: State)
    requires c.sector > 0
  {
    st.cursor < c.total ==> Blank(st.flash, st.cursor, RoundUp(st.cursor + 1, c.sector))
  }

  lemma RoundUpNext(x: nat, s: nat)
    requires s > 0
    ensures x % s == 0 ==> RoundUp(x + 1, s) == x + s
    ensures x % s != 0 ==> RoundUp(x + 1, s) == RoundUp(x, s)
  {
    RoundUpMultiple(x, s);
    if x % s == 0 {
      DivModUnique(x + s, s, x / s + 1, 0);
    } else {
      DivModUnique(x + s, s, x / s + 1, x % s);
    }
  }

  lemma CleanWriteBlanksAhead(c: Config, st: State, r: Record)
    requires Geometry(c) && CursorClear(c, st) && Fits(c, |r.data|)
    ensures Write(c, st, r, NO_FAULTS).0 == Ok
    ensures BlankAhead(c, Write(c, st, r, NO_FAULTS).1)
  {
    hide Encode;
    hide Programmed;
    var end := Write(c, st, r, NO_FAULTS).1.cursor;
    WriteKeepsCursorClear(c, st, r, NO_FAULTS);
    PlanBounds(c, st.cursor, |r.data|);
    RoundUpNext(end, c.sector);
  }

  predicate HeaderBlank(c: Config, f: seq<Byte>, off: nat)
    requires |f| == c.total
  {
    off + HEADER > c.total || forall i :: off <= i < off + HEADER ==> f[i] == ERASED
  }

  /** A scan that arrives at an erased byte stops there: clean if a whole header is blank, dirty otherwise. */
  lemma ScanStopsAtBlank(c: Config, f: seq<Byte>, off: nat, frames: nat)
    requires |f| == c.total && off <= c.total && (off < c.total ==> f[off] == ERASED)
    ensures Scan(Verdicts(c, f), off, frames) == ScanEnd(frames, off, !HeaderBlank(c, f, off))
  {
  }

  /** After any run that ends in a fault-free record, the scan counts exactly the records of the lap
      and puts the cursor back, or at the next sector boundary if the header slot is not blank. */
  lemma RecoverExact(c: Config, st: State, lap: seq<Record>)
    requires Geometry(c) && CursorClear(c, st) && Holds(c, st, lap) && BlankAhead(c, st)
    ensures Recover(c, st.flash).0 == |lap|
    ensures Recover(c, st.flash).1
         == State(st.flash, if HeaderBlank(c, st.flash, st.cursor) then st.cursor else RoundUp(st.cursor, c.sector))
  {
    var f := st.flash;
    LapSkipped(c, f, lap);
    ScanStopsAtBlank(c, f, st.cursor, |lap|);
    RoundUpLeast(st.cursor, c.sector, c.total);
  }

  /** RecoverExact for whole runs from registration: any image, any driver answers, last record clean. */
  lemma RecoverAfterRun(c: Config, image: seq<Byte>, ops: seq<Op>)
    requires Geometry(c) && |image| == c.total && TicksFit(ops)
    requires ops != [] && Fits(c, |ops[|ops| - 1].record.data|) && ops[|ops| - 1].faults == NO_FAULTS
    ensures var st, lap := Run(c, State(image, 0), ops), LapOf(c, State(image, 0), [], ops);
            && lap != [] && lap[|lap| - 1] == ops[|ops| - 1].record
            && Recover(c, st.flash) == (|lap|,
                 State(st.flash, if HeaderBlank(c, st.flash, st.cursor) then st.cursor else RoundUp(st.cursor, c.sector)))
  {
    var st0, front, last := State(image, 0), ops[..|ops| - 1], ops[|ops| - 1];
    RoundUpMultiple(0, c.sector);
    RunKeepsCursorClear(c, st0, front);
    RunKeepsCursorClear(c, st0, ops);
    RunKeepsLap(c, st0, [], ops);
    CleanWriteBlanksAhead(c, Run(c, st0, front), last.record);
    RecoverExact(c, Run(c, st0, ops), LapOf(c, st0, [], ops));
  }

  // ---- Power loss while programming ----

  /** The partition after power fails once k bytes of the frame are programmed. */
  function Torn(c: Config, st: State, r: Record, k: nat): (f: seq<Byte>)
    requires Geometry(c) && |st.flash| == c.total && st.cursor <= c.total
    requires Fits(c, |r.data|) && k <= WriteLen(c, |r.data|)
    ensures |f| == c.total
  {
    Programmed(ReadyToProgram(c, st, |r.data|, Done), Start(c, st.cursor, |r.data|), Encode(c, r), k)
  }

  /** The first k bytes of a frame, then blank flash to the end of its last sector. */
  ghost predicate PartialFrame(c: Config, f: seq<Byte>, start: nat, r: Record, k: nat)
    requires c.sector > 0
  {
    var len := WriteLen(c, |r.data|);
    && k <= len && start + len <= |f| == c.total
    && f[start..start + k] == Encode(c, r)[..k]
    && Blank(f, start + k, RoundUp(start + len, c.sector))
  }

  /** The torn frame: its first k bytes stand, and the rest up to the end of its last sector is blank. */
  lemma TornBytes(c: Config, st: State, r: Record, k: nat)
    requires Geometry(c) && CursorClear(c, st) && GoodRecord(c, r) && k <= WriteLen(c, |r.data|)
    ensures var f, start := Torn(c, st, r, k), Start(c, st.cursor, |r.data|);
            f[..start] == st.flash[..start] && PartialFrame(c, f, start, r, k)
  {
    hide Encode;
    hide ProgramByte;
    var start := Start(c, st.cursor, |r.data|);
    PlanBounds(c, st.cursor, |r.data|);
    EraseClears(c, st, |r.data|);
    ProgramsFrame(ReadyToProgram(c, st, |r.data|, Done), start, Encode(c, r), k);
  }

  lemma PartialBytes(c: Config, f: seq<Byte>, start: nat, r: Record, k: nat, i: nat)
    requires c.sector > 0 && PartialFrame(c, f, start, r, k) && i < WriteLen(c, |r.data|)
    ensures f[start + i] == if i < k then Encode(c, r)[i] else ERASED
  {
    if i < k {
      assert f[start..start + k][i] == Encode(c, r)[..k][i];
    }
  }

  /** The scan can take a partial frame only for a frame of its own length. */
  lemma PartialVerdict(c: Config, f: seq<Byte>, start: nat, r: Record, k: nat)
    requires Geometry(c) && GoodRecord(c, r) && PartialFrame(c, f, start, r, k)
    ensures var v := Inspect(c, f, start);
            && (v.Frame? ==> k >= 4 && v.advance == WriteLen(c, |r.data|))
            && (v.Unwritten? <==> k == 0)
  {
    EncodeLayout(c, r);
    PartialBytes(c, f, start, r, k, 0);
    PartialBytes(c, f, start, r, k, 2);
    PartialBytes(c, f, start, r, k, 3);
  }

  lemma CompleteVerdict(c: Config, f: seq<Byte>, start: nat, r: Record)
    requires Geometry(c) && GoodRecord(c, r) && PartialFrame(c, f, start, r, WriteLen(c, |r.data|))
    ensures Inspect(c, f, start) == Frame(WriteLen(c, |r.data|))
  {
    var e := Encode(c, r);
    assert e[..|e|] == e;
    EncodedFrameScans(c, f, start, r);
  }

  /** An aligned cursor is clear whatever the flash holds. */
  lemma AlignedIsClear(c: Config, f: seq<Byte>, x: nat)
    requires Geometry(c) && |f| == c.total && x <= c.total
    ensures RoundUp(x, c.sector) <= c.total && CursorClear(c, State(f, RoundUp(x, c.sector)))
  {
    RoundUpLeast(x, c.sector, c.total);
    RoundUpMultiple(x, c.sector);
    RoundUpMultiple(RoundUp(x, c.sector), c.sector);
  }

  /** A partial frame whose checksum matches is counted, and the scan stops right behind it. */
  lemma PartialAccepted(c: Config, f: seq<Byte>, start: nat, r: Record, k: nat, frames: nat)
    requires Geometry(c) && GoodRecord(c, r) && PartialFrame(c, f, start, r, k)
    requires Inspect(c, f, start).Frame?
    requires var end := start + WriteLen(c, |r.data|); end % c.sector != 0 || end == c.total
    ensures var end := start + WriteLen(c, |r.data|);
            && Scan(Verdicts(c, f), start, frames) == ScanEnd(frames + 1, end, !HeaderBlank(c, f, end))
            && CursorClear(c, State(f, end))
  {
    var end := start + WriteLen(c, |r.data|);
    PartialVerdict(c, f, start, r, k);
    RoundUpMultiple(end, c.sector);
    ScanStopsAtBlank(c, f, end, frames + 1);
  }

  /** A partial frame that is not accepted stops the scan where it starts. */
  lemma PartialRefused(c: Config, f: seq<Byte>, start: nat, r: Record, k: nat, frames: nat)
    requires Geometry(c) && GoodRecord(c, r) && PartialFrame(c, f, start, r, k)
    requires !Inspect(c, f, start).Frame?
    ensures Scan(Verdicts(c, f), start, frames) == ScanEnd(frames, start, k != 0)
    ensures k == 0 ==> CursorClear(c, State(f, start))
  {
    var end := start + WriteLen(c, |r.data|);
    PartialVerdict(c, f, start, r, k);
    RoundUpMultiple(end, c.sector);
    RoundUpLeast(start, c.sector, RoundUp(end, c.sector));
  }

  /** A dirty stop is always made safe by moving to a boundary; a clean stop is safe where it is. */
  lemma StopIsClear(c: Config, f: seq<Byte>, e: ScanEnd)
    requires Geometry(c) && |f| == c.total && e.offset <= c.total
    requires !e.dirty ==> CursorClear(c, State(f, e.offset))
    ensures CursorClear(c, State(f, CursorOf(c, e)))
  {
    AlignedIsClear(c, f, e.offset);
  }

  /** What recovery owes after power loss k bytes into r, with n records before it: those records are
      counted, r only if enough of it was written and certainly if all of it was, and the cursor is clear. */
  ghost predicate Recovered(c: Config, f: seq<Byte>, r: Record, k: nat, n: nat, frames: nat, cursor: nat)
    requires c.sector > 0
  {
    && n <= frames <= n + 1
    && (k < 4 ==> frames == n)
    && (k == WriteLen(c, |r.data|) ==> frames == n + 1)
    && CursorClear(c, State(f, cursor))
  }

  /** Nothing the scan could take for a frame can follow a frame that ends here: it ends inside a
      sector, or too near the end of the partition. */
  predicate NothingBehind(c: Config, end: nat)
    requires c.sector > 0
  {
    end % c.sector != 0 || end + HEADER + 1 > c.total
  }

  /** At the end of the partition there is no room for another frame. */
  lemma BoundaryAccepted(c: Config, f: seq<Byte>, start: nat, r: Record, k: nat, frames: nat)
    requires Geometry(c) && GoodRecord(c, r) && PartialFrame(c, f, start, r, k)
    requires Inspect(c, f, start).Frame?
    requires var end := start + WriteLen(c, |r.data|); end % c.sector == 0 && end + HEADER + 1 > c.total
    ensures var end, e := start + WriteLen(c, |r.data|), Scan(Verdicts(c, f), start, frames);
            e.frames == frames + 1 && e.offset == end && CursorClear(c, State(f, end))
  {
    hide Encode;
    hide Inspect;
    hide Blank;
    hide Verdicts;
    hide CursorClear;
    hide RoundUp;
    var end := start + WriteLen(c, |r.data|);
    PartialVerdict(c, f, start, r, k);
    VerdictAt(c, f, start);
    LastSlot(c, f, end, frames + 1);
    RoundUpMultiple(end, c.sector);
    AlignedIsClear(c, f, end);
  }

  lemma LastSlot(c: Config, f: seq<Byte>, end: nat, frames: nat)
    requires |f| == c.total < end + HEADER + 1
    ensures var e := Scan(Verdicts(c, f), end, frames); e.frames == frames && e.offset == end
  {
  }

  lemma PartialStop(c: Config, f: seq<Byte>, start: nat, r: Record, k: nat, n: nat)
    requires Geometry(c) && GoodRecord(c, r) && PartialFrame(c, f, start, r, k)
    requires NothingBehind(c, start + WriteLen(c, |r.data|))
    ensures var e := Scan(Verdicts(c, f), start, n);
            Recovered(c, f, r, k, n, e.frames, CursorOf(c, e))
  {
    hide Encode;
    hide Inspect;
    hide Scan;
    if k == WriteLen(c, |r.data|) {
      CompleteVerdict(c, f, start, r);
    }
    if Inspect(c, f, start).Frame? {
      assert k >= 4 by { PartialVerdict(c, f, start, r, k); }
      if (start + WriteLen(c, |r.data|)) % c.sector != 0 {
        PartialAccepted(c, f, start, r, k, n);
      } else {
        BoundaryAccepted(c, f, start, r, k, n);
      }
    } else {
      PartialRefused(c, f, start, r, k, n);
    }
    StopIsClear(c, f, Scan(Verdicts(c, f), start, n));
  }

  /** Recovery from a flash that holds a lap followed by a partial frame. */
  lemma PartialRecovers(c: Config, f: seq<Byte>, lap: seq<Record>, r: Record, k: nat)
    requires Geometry(c) && GoodRecord(c, r) && (forall q :: q in lap ==> GoodRecord(c, q))
    requires LapLen(c, lap) <= |f| == c.total && f[..LapLen(c, lap)] == Image(c, lap)
    requires PartialFrame(c, f, LapLen(c, lap), r, k)
    requires NothingBehind(c, LapLen(c, lap) + WriteLen(c, |r.data|))
    ensures Recovered(c, f, r, k, |lap|, Recover(c, f).0, Recover(c, f).1.cursor)
  {
    hide Scan;
    hide Verdicts;
    hide Inspect;
    hide Image;
    hide LapLen;
    hide Encode;
    hide Recovered;
    hide PartialFrame;
    LapSkipped(c, f, lap);
    PartialStop(c, f, LapLen(c, lap), r, k, |lap|);
    var e := Scan(Verdicts(c, f), 0, 0);
    assert Recover(c, f) == (e.frames, State(f, CursorOf(c, e)));
  }

  /** Power loss after any k bytes of a frame behind which no old frame can stand: the scan still counts
      every earlier record of the lap and leaves a clear cursor, whether or not the torn frame's checksum
      happens to match. */
  lemma PowerLossRecovers(c: Config, st: State, lap: seq<Record>, r: Record, k: nat)
    requires Geometry(c) && CursorClear(c, st) && Holds(c, st, lap) && GoodRecord(c, r)
    requires k <= WriteLen(c, |r.data|)
    requires NothingBehind(c, Start(c, st.cursor, |r.data|) + WriteLen(c, |r.data|))
    ensures var kept := if Start(c, st.cursor, |r.data|) != st.cursor then [] else lap;
            var f := Torn(c, st, r, k);
            Recovered(c, f, r, k, |kept|, Recover(c, f).0, Recover(c, f).1.cursor)
  {
    var f, start := Torn(c, st, r, k), Start(c, st.cursor, |r.data|);
    var kept := if start != st.cursor then [] else lap;
    TornBytes(c, st, r, k);
    assert f[..start] == Image(c, kept);
    PartialRecovers(c, f, kept, r, k);
  }

  /** The whole story: registration over any image, any run, power loss inside a record, the scan,
      and any run after it. Nothing is ever programmed over a byte that is not erased, and no
      completed record of the lap is lost. */
  lemma PowerLossRunsAreSafe(c: Config, image: seq<Byte>, before: seq<Op>, r: Record, k: nat, after: seq<Op>)
    requires Geometry(c) && |image| == c.total && TicksFit(before) && GoodRecord(c, r)
    requires k <= WriteLen(c, |r.data|)
    requires NothingBehind(c, Start(c, Run(c, State(image, 0), before).cursor, |r.data|) + WriteLen(c, |r.data|))
    ensures var st := Run(c, State(image, 0), before);
            var (frames, st') := Recover(c, Torn(c, st, r, k));
            && RunSafe(c, State(image, 0), before)
            && StepSafe(c, st, r, NO_FAULTS)
            && (Start(c, st.cursor, |r.data|) == st.cursor ==> frames >= |LapOf(c, State(image, 0), [], before)|)
            && st'.cursor <= c.total && RunSafe(c, st', after)
  {
    hide Torn;
    hide Recover;
    hide Encode;
    hide NothingBehind;
    hide WriteLen;
    hide Holds;
    hide CursorClear;
    hide RunSafe;
    hide StepSafe;
    hide Run;
    hide LapOf;
    RegisteredRunsAreSafe(c, image, before);
    RunReady(c, image, before);
    CrashThenRun(c, Run(c, State(image, 0), before), LapOf(c, State(image, 0), [], before), r, k, after);
  }

  lemma RunReady(c: Config, image: seq<Byte>, ops: seq<Op>)
    requires Geometry(c) && |image| == c.total && TicksFit(ops)
    ensures var st := Run(c, State(image, 0), ops);
            && CursorClear(c, st) && |st.flash| == c.total && st.cursor <= c.total
            && Holds(c, st, LapOf(c, State(image, 0), [], ops))
  {
    RoundUpMultiple(0, c.sector);
    RunKeepsCursorClear(c, State(image, 0), ops);
    RunKeepsLap(c, State(image, 0), [], ops);
  }

  lemma CrashThenRun(c: Config, st: State, lap: seq<Record>, r: Record, k: nat, after: seq<Op>)
    requires Geometry(c) && CursorClear(c, st) && |st.flash| == c.total && st.cursor <= c.total
    requires Holds(c, st, lap) && GoodRecord(c, r) && k <= WriteLen(c, |r.data|)
    requires NothingBehind(c, Start(c, st.cursor, |r.data|) + WriteLen(c, |r.data|))
    ensures var (frames, st') := Recover(c, Torn(c, st, r, k));
            && StepSafe(c, st, r, NO_FAULTS)
            && (Start(c, st.cursor, |r.data|) == st.cursor ==> frames >= |lap|)
            && |st'.flash| == c.total && st'.cursor <= c.total && RunSafe(c, st', after)
  {
    hide Torn;
    hide Encode;
    hide NothingBehind;
    hide WriteLen;
    hide Holds;
    hide RunSafe;
    hide StepSafe;
    WriteKeepsCursorClear(c, st, r, NO_FAULTS);
    PowerLossRecovers(c, st, lap, r, k);
    RunsAreSafe(c, Recover(c, Torn(c, st, r, k)).1, after);
  }

  // ---- Exactly when recovery is exact ----

  /** A state in which r is about to be written right behind the lap. */
  ghost predicate ReadyFor(c: Config, st: State, lap: seq<Record>, r: Record)
    requires c.sector > 0
  {
    && CursorClear(c, st) && Start(c, st.cursor, |r.data|) == LapLen(c, lap) <= c.total
    && st.flash[..LapLen(c, lap)] == Image(c, lap)
  }

  ghost predicate RecoversAlways(c: Config, lap: seq<Record>, r: Record)
    requires Geometry(c) && GoodRecord(c, r)
  {
    forall st, k: nat | ReadyFor(c, st, lap, r) && k <= WriteLen(c, |r.data|) ::
      var f := Torn(c, st, r, k); Recovered(c, f, r, k, |lap|, Recover(c, f).0, Recover(c, f).1.cursor)
  }

  /** Whatever the rest of the partition holds and wherever power fails, recovery counts exactly the
      lap with or without the torn record and leaves a clear cursor, if and only if the frame does not
      end on a sector boundary with room for another frame behind it. */
  lemma PowerLossRecoversIff(c: Config, lap: seq<Record>, r: Record)
    requires Geometry(c) && GoodRecord(c, r) && (forall q :: q in lap ==> GoodRecord(c, q))
    requires LapLen(c, lap) + WriteLen(c, |r.data|) <= c.total
    ensures RecoversAlways(c, lap, r) <==> NothingBehind(c, LapLen(c, lap) + WriteLen(c, |r.data|))
  {
    hide RecoversAlways;
    hide NothingBehind;
    if NothingBehind(c, LapLen(c, lap) + WriteLen(c, |r.data|)) {
      AlwaysRecovers(c, lap, r);
    } else {
      NotAlwaysRecovers(c, lap, r);
    }
  }

  lemma AlwaysRecovers(c: Config, lap: seq<Record>, r: Record)
    requires Geometry(c) && GoodRecord(c, r) && (forall q :: q in lap ==> GoodRecord(c, q))
    requires NothingBehind(c, LapLen(c, lap) + WriteLen(c, |r.data|))
    ensures RecoversAlways(c, lap, r)
  {
    hide Recovered;
    hide Recover;
    hide Encode;
    hide Torn;
    hide NothingBehind;
    hide Image;
    hide LapLen;
    hide PartialFrame;
    forall st, k: nat | ReadyFor(c, st, lap, r) && k <= WriteLen(c, |r.data|)
      ensures var f := Torn(c, st, r, k); Recovered(c, f, r, k, |lap|, Recover(c, f).0, Recover(c, f).1.cursor)
    {
      TornBytes(c, st, r, k);
      PartialRecovers(c, Torn(c, st, r, k), lap, r, k);
    }
  }

  lemma NotAlwaysRecovers(c: Config, lap: seq<Record>, r: Record)
    requires Geometry(c) && GoodRecord(c, r) && (forall q :: q in lap ==> GoodRecord(c, q))
    requires !NothingBehind(c, LapLen(c, lap) + WriteLen(c, |r.data|))
    ensures !RecoversAlways(c, lap, r)
  {
    hide Recover;
    hide Encode;
    hide Torn;
    hide NothingBehind;
    hide Image;
    hide LapLen;
    hide ReadyFor;
    hide CursorClear;
    hide StaleBehind;
    var st := StaleBehind(c, lap, r);
    StaleReady(c, lap, r);
    StaleIsCounted(c, lap, r);
    TornFits(c, st, lap, r);
  }

  lemma TornFits(c: Config, st: State, lap: seq<Record>, r: Record)
    requires c.sector > 0 && ReadyFor(c, st, lap, r)
    ensures |st.flash| == c.total && st.cursor <= c.total
  {
  }

  const STALE: Record := Record([0], 0)

  /** The lap, blank flash for the frame, and behind it the first bytes of an old frame. */
  function StaleBehind(c: Config, lap: seq<Record>, r: Record): State {
    var n := WriteLen(c, |r.data|);
    var used := LapLen(c, lap) + n + HEADER + 1;
    State(Image(c, lap) + Fill(n) + Encode(c, STALE)[..HEADER + 1] + Fill(if used <= c.total then c.total - used else 0),
          LapLen(c, lap))
  }

  lemma StaleReady(c: Config, lap: seq<Record>, r: Record)
    requires Geometry(c) && GoodRecord(c, r)
    requires !NothingBehind(c, LapLen(c, lap) + WriteLen(c, |r.data|))
    ensures ReadyFor(c, StaleBehind(c, lap, r), lap, r)
    ensures |StaleBehind(c, lap, r).flash| == c.total && StaleBehind(c, lap, r).cursor == LapLen(c, lap) <= c.total
  {
    hide Encode;
    hide Image;
    hide LapLen;
    hide WriteLen;
    var at, n := LapLen(c, lap), WriteLen(c, |r.data|);
    RoundUpMultiple(at + n, c.sector);
    RoundUpLeast(at, c.sector, at + n);
    var f := StaleBehind(c, lap, r).flash;
    assert f[..at] == Image(c, lap);
    assert forall i :: at <= i < at + n ==> f[i] == Fill(n)[i - at];
  }

  /** Bytes behind a frame that ends on a sector boundary are not touched by writing it. */
  lemma TornKeepsBehind(c: Config, st: State, r: Record, i: nat)
    requires Geometry(c) && |st.flash| == c.total && st.cursor <= c.total && GoodRecord(c, r)
    requires var end := Start(c, st.cursor, |r.data|) + WriteLen(c, |r.data|); end % c.sector == 0 && end <= i < c.total
    ensures Torn(c, st, r, WriteLen(c, |r.data|))[i] == st.flash[i]
  {
    hide Encode;
    hide WriteLen;
    hide ProgramByte;
    RoundUpMultiple(Start(c, st.cursor, |r.data|) + WriteLen(c, |r.data|), c.sector);
  }

  lemma {:induction false} ScanCounts(v: seq<Verdict>, off: nat, frames: nat)
    ensures Scan(v, off, frames).frames >= frames
    decreases |v| - off
  {
    if off + HEADER <= |v| && v[off].Frame? { ScanCounts(v, off + v[off].advance, frames + 1); }
  }

  lemma TwoMore(v: seq<Verdict>, off: nat, frames: nat)
    requires off + HEADER <= |v| && v[off].Frame?
    requires var next := off + v[off].advance; next + HEADER <= |v| && v[next].Frame?
    ensures Scan(v, off, frames).frames >= frames + 2
  {
    var next := off + v[off].advance;
    ScanCounts(v, next + v[next].advance, frames + 2);
    assert Scan(v, next, frames + 1) == Scan(v, next + v[next].advance, frames + 2);
  }

  /** The old frame is taken for part of the lap. */
  lemma StaleIsCounted(c: Config, lap: seq<Record>, r: Record)
    requires Geometry(c) && GoodRecord(c, r) && (forall q :: q in lap ==> GoodRecord(c, q))
    requires !NothingBehind(c, LapLen(c, lap) + WriteLen(c, |r.data|))
    requires ReadyFor(c, StaleBehind(c, lap, r), lap, r)
    ensures var f := Torn(c, StaleBehind(c, lap, r), r, WriteLen(c, |r.data|)); Recover(c, f).0 >= |lap| + 2
  {
    hide Image;
    hide LapLen;
    hide WriteLen;
    hide Torn;
    hide Scan;
    hide Verdicts;
    hide StaleBehind;
    hide RoundUp;
    hide Blank;
    var f := Torn(c, StaleBehind(c, lap, r), r, WriteLen(c, |r.data|));
    StaleLap(c, lap, r);
    LapSkipped(c, f, lap);
    TwoMore(Verdicts(c, f), LapLen(c, lap), |lap|);
  }

  /** Both the new and the old frame are recognised. */
  lemma StaleLap(c: Config, lap: seq<Record>, r: Record)
    requires Geometry(c) && GoodRecord(c, r)
    requires !NothingBehind(c, LapLen(c, lap) + WriteLen(c, |r.data|))
    requires ReadyFor(c, StaleBehind(c, lap, r), lap, r)
    ensures var f := Torn(c, StaleBehind(c, lap, r), r, WriteLen(c, |r.data|));
            var at, n := LapLen(c, lap), WriteLen(c, |r.data|);
            && f[..at] == Image(c, lap)
            && Verdicts(c, f)[at] == Frame(n) && Verdicts(c, f)[at + n] == Frame(WriteLen(c, 1))
  {
    hide Encode;
    hide Inspect;
    hide Image;
    hide LapLen;
    hide WriteLen;
    hide Torn;
    hide StaleBehind;
    var st, at, n := StaleBehind(c, lap, r), LapLen(c, lap), WriteLen(c, |r.data|);
    var f := Torn(c, st, r, n);
    TornBytes(c, st, r, n);
    CompleteVerdict(c, f, at, r);
    VerdictAt(c, f, at);
    StaleStands(c, lap, r);
    FrameScans(c, f, at + n, STALE);
    VerdictAt(c, f, at + n);
  }

  lemma StaleStands(c: Config, lap: seq<Record>, r: Record)
    requires Geometry(c) && GoodRecord(c, r)
    requires !NothingBehind(c, LapLen(c, lap) + WriteLen(c, |r.data|))
    requires ReadyFor(c, StaleBehind(c, lap, r), lap, r)
    ensures var f, end := Torn(c, StaleBehind(c, lap, r), r, WriteLen(c, |r.data|)), LapLen(c, lap) + WriteLen(c, |r.data|);
            f[end..end + HEADER + 1] == Encode(c, STALE)[..HEADER + 1]
  {
    hide Encode;
    hide Image;
    hide LapLen;
    hide WriteLen;
    hide Torn;
    var st, end := StaleBehind(c, lap, r), LapLen(c, lap) + WriteLen(c, |r.data|);
    var f := Torn(c, st, r, WriteLen(c, |r.data|));
    forall i | 0 <= i < HEADER + 1
      ensures f[end + i] == Encode(c, STALE)[i]
    {
      TornKeepsBehind(c, st, r, end + i);
    }
  }

  // ---- Where the promise ends: a frame ending on an inner sector boundary ----

  /** A 64-byte partition of two sectors whose second sector still holds an old record, a blank
      header slot and then an old byte. */
  function StaleConfig(crc: seq<Byte> -> nat): Config {
    Config(64, 32, 1, 512, crc)
  }

  const OLD_RECORD := Record([7], 0)
  const BOUNDARY_RECORD := Record(seq(22, _ => 1), 0)

  function StaleTail(c: Config): seq<Byte> {
    Encode(c, OLD_RECORD) + Fill(10) + [0] + Fill(10)
  }

  /** The boundary record completely written, power lost before the sector behind it is erased: the
      scan runs on into the old record, the cursor stops in front of an old byte, and the next record
      is programmed over it. */
  lemma BoundaryFrameLosesSafety(crc: seq<Byte> -> nat)
    ensures var c := StaleConfig(crc);
            var st := State(Fill(32) + StaleTail(c), 0);
            && Geometry(c) && CursorClear(c, st) && Fits(c, |BOUNDARY_RECORD.data|)
            && WriteLen(c, |BOUNDARY_RECORD.data|) == 32 && !NothingBehind(c, 32)
            && Recover(c, Torn(c, st, BOUNDARY_RECORD, 32)) == (2, State(Torn(c, st, BOUNDARY_RECORD, 32), 43))
            && !StepSafe(c, Recover(c, Torn(c, st, BOUNDARY_RECORD, 32)).1, OLD_RECORD, NO_FAULTS)
  {
    hide Encode;
    hide Recover;
    hide Torn;
    hide StepSafe;
    var c := StaleConfig(crc);
    assert Pow2(0) == 1;
    assert WriteLen(c, 1) == 11 && WriteLen(c, 22) == 32;
    var tail := StaleTail(c);
    assert |tail| == 32;
    BoundaryTorn(c, tail, BOUNDARY_RECORD);
    var f := Encode(c, BOUNDARY_RECORD) + tail;
    assert f == Encode(c, BOUNDARY_RECORD) + Encode(c, OLD_RECORD) + Fill(10) + [0] + Fill(10);
    BoundaryScan(c, f, BOUNDARY_RECORD, OLD_RECORD);
  }

  lemma ProgramsAtStart(f: seq<Byte>, e: seq<Byte>)
    requires |e| <= |f| && Blank(f, 0, |e|)
    ensures Programmed(f, 0, e, |e|) == e + f[|e|..]
  {
    hide ProgramByte;
    ProgramsFrame(f, 0, e, |e|);
    var p := Programmed(f, 0, e, |e|);
    assert e[..|e|] == e;
    assert p[|e|..] == f[|e|..];
    assert p == p[0..|e|] + p[|e|..];
  }

  lemma EraseKeepsTail(a: seq<Byte>, tail: seq<Byte>)
    ensures Blank(Erased(a + tail, 0, |a|, Done), 0, |a|)
    ensures Erased(a + tail, 0, |a|, Done)[|a|..] == tail
  {
    var f := Erased(a + tail, 0, |a|, Done)[|a|..];
    forall i | 0 <= i < |tail|
      ensures f[i] == tail[i]
    {
      assert f[i] == (a + tail)[|a| + i];
    }
  }

  lemma BoundaryPlan(c: Config)
    requires c.sector == 32
    ensures EraseFrom(c, 0) == 0 && EraseTo(c, 32) == 32
  {
  }

  lemma BoundaryTorn(c: Config, tail: seq<Byte>, r: Record)
    requires Geometry(c) && c.total == 64 && c.sector == 32 && c.ring >= 32
    requires |tail| == 32 && WriteLen(c, |r.data|) == 32 && |r.data| > 0
    ensures Torn(c, State(Fill(32) + tail, 0), r, 32) == Encode(c, r) + tail
  {
    hide Encode;
    hide Programmed;
    hide WriteLen;
    hide Fill;
    hide Erased;
    hide Blank;
    hide EraseFrom;
    hide EraseTo;
    hide RoundUp;
    hide Geometry;
    BoundaryPlan(c);
    EraseKeepsTail(Fill(32), tail);
    ProgramsAtStart(Erased(Fill(32) + tail, 0, 32, Done), Encode(c, r));
  }

  lemma BoundaryScan(c: Config, f: seq<Byte>, r: Record, old_r: Record)
    requires Geometry(c) && c.total == 64 && c.sector == 32
    requires GoodRecord(c, r) && GoodRecord(c, old_r)
    requires WriteLen(c, |r.data|) == 32 && WriteLen(c, |old_r.data|) == 11
    requires f == Encode(c, r) + Encode(c, old_r) + Fill(10) + [0] + Fill(10)
    ensures |f| == c.total && Recover(c, f) == (2, State(f, 43))
    ensures !StepSafe(c, State(f, 43), old_r, NO_FAULTS)
  {
    hide Encode;
    hide Inspect;
    hide WriteLen;
    var lap := [r, old_r];
    assert lap[..1] == [r] && [r][..0] == [];
    assert LapLen(c, [r]) == 32;
    assert LapLen(c, lap) == 43;
    assert Image(c, [r]) == Encode(c, r);
    assert Image(c, lap) == Encode(c, r) + Encode(c, old_r);
    assert f[..43] == Image(c, lap);
    LapSkipped(c, f, lap);
    assert f[53] == 0;
    assert HeaderBlank(c, f, 43);
    ScanStopsAtBlank(c, f, 43, 2);
    assert EraseFrom(c, 43) == 64;
    assert ReadyToProgram(c, State(f, 43), |old_r.data|, Done)[53] == 0;
  }

  // ---- Erasing the whole partition ----

  function CleanAll(c: Config, st: State, opens: bool, o: EraseOutcome): (Ret, State)
  {
    if !opens then (OpenError, st)
    else
      var f := Erased(st.flash, 0, c.total, o);
      if o.Failed? then (EraseError, State(f, st.cursor)) else (Ok, State(f, 0))
  }

  /** Each code by its cause. Success leaves a blank partition and the cursor at its start; any error leaves the
      cursor, and a driver that does not open leaves the partition too. */
  lemma CleanAllIs(c: Config, st: State, opens: bool, o: EraseOutcome)
    requires |st.flash| == c.total
    ensures var (ret, st') := CleanAll(c, st, opens, o);
            && (ret == OpenError <==> !opens) && (ret == EraseError <==> opens && o.Failed?) && (ret == Ok <==> opens && o.Done?)
            && |st'.flash| == c.total
            && (ret == Ok ==> st'.cursor == 0 && Blank(st'.flash, 0, c.total))
            && (ret != Ok ==> st'.cursor == st.cursor)
            && (ret == OpenError ==> st'.flash == st.flash)
  {
  }

  lemma CleanAllKeepsCursorClear(c: Config, st: State)
    requires Geometry(c) && CursorClear(c, st)
    ensures CursorClear(c, CleanAll(c, st, true, Done).1)
    ensures CursorClear(c, CleanAll(c, st, false, Done).1)
  {
    RoundUpMultiple(0, c.sector);
  }

  /** A failing whole-partition erase leaves the cursor where it was: safe whatever it scrambled
      exactly when the cursor stands on a sector boundary. */
  lemma FailedCleanAllSafeIff(c: Config, st: State)
    requires Geometry(c) && CursorClear(c, st)
    ensures (forall g :: CursorClear(c, CleanAll(c, st, true, Failed(g)).1)) <==> st.cursor % c.sector == 0
  {
    RoundUpMultiple(st.cursor, c.sector);
    if st.cursor % c.sector != 0 {
      RoundUpLeast(st.cursor, c.sector, c.total);
      var zeros: seq<Byte> := seq(c.total, _ => 0);
      var st' := CleanAll(c, st, true, Failed(zeros)).1;
      assert st'.flash[st.cursor] == 0;
      assert !CursorClear(c, st');
    }
  }

  // ---- A program step that fails halfway ----

  /** The driver reports an error after k bytes of the frame were programmed: the cursor stays in front
      of them. */
  function HalfProgrammed(c: Config, st: State, r: Record, k: nat): State
    requires Geometry(c) && |st.flash| == c.total && st.cursor <= c.total && GoodRecord(c, r) && k <= WriteLen(c, |r.data|)
  {
    State(Torn(c, st, r, k), Start(c, st.cursor, |r.data|))
  }

  lemma FirstByteStays(c: Config, st: State, r: Record, k: nat)
    requires Geometry(c) && CursorClear(c, st) && GoodRecord(c, r) && 0 < k <= WriteLen(c, |r.data|)
    ensures var start := Start(c, st.cursor, |r.data|); start < c.total && Torn(c, st, r, k)[start] != ERASED
  {
    hide Encode;
    hide ReadyToProgram;
    hide ProgramByte;
    hide Start;
    hide RoundUp;
    var n, e := |r.data|, Encode(c, r);
    var start, f := Start(c, st.cursor, n), ReadyToProgram(c, st, n, Done);
    PlanBounds(c, st.cursor, n);
    EraseClears(c, st, n);
    assert f[start] == ERASED;
    MagicStands(c, r);
    ProgramErased(e[0]);
    assert Programmed(f, start, e, k)[start] == ProgramByte(f[start], e[0]);
  }

  lemma MagicStands(c: Config, r: Record)
    requires |r.data| < 0x1_0000
    ensures Encode(c, r)[0] != ERASED
  {
    hide Encode;
    EncodeLayout(c, r);
  }

  /** The flash at the cursor is clear again if and only if the frame starts a sector, and only then is
      the next record that goes there programmed on erased bytes: elsewhere nothing erases the rest
      of the sector first. */
  lemma FailedProgramSafeIff(c: Config, st: State, r: Record, k: nat, next: Record)
    requires Geometry(c) && CursorClear(c, st) && GoodRecord(c, r) && 0 < k <= WriteLen(c, |r.data|)
    requires GoodRecord(c, next) && Start(c, st.cursor, |r.data|) + WriteLen(c, |next.data|) <= c.total
    ensures var st' := HalfProgrammed(c, st, r, k);
            && (CursorClear(c, st') <==> st'.cursor % c.sector == 0)
            && (StepSafe(c, st', next, NO_FAULTS) <==> st'.cursor % c.sector == 0)
  {
    hide Torn;
    hide Encode;
    var st' := HalfProgrammed(c, st, r, k);
    var start := st'.cursor;
    PlanBounds(c, st.cursor, |r.data|);
    FirstByteStays(c, st, r, k);
    RoundUpMultiple(start, c.sector);
    if start % c.sector == 0 {
      WriteKeepsCursorClear(c, st', next, NO_FAULTS);
    } else {
      EraseFromIsRoundUp(c, start);
      assert ReadyToProgram(c, st', |next.data|, Done)[start] == st'.flash[start];
    }
  }

  // ---- Power loss while erasing ----

  /** A record that starts inside a sector finds the rest of that sector as it was. */
  lemma EraseLossKeeps(c: Config, st: State, n: nat, garbage: seq<Byte>)
    requires Geometry(c) && CursorClear(c, st) && Fits(c, n) && Start(c, st.cursor, n) % c.sector != 0
    ensures var f, g := ReadyToProgram(c, st, n, Failed(garbage)), st.cursor;
            && Start(c, g, n) == g && RoundUp(g, c.sector) <= c.total
            && f[..RoundUp(g, c.sector)] == st.flash[..RoundUp(g, c.sector)] && Blank(f, g, RoundUp(g, c.sector))
  {
    hide RoundUp;
    hide WriteLen;
    var g := st.cursor;
    assert Start(c, g, n) == g;
    EraseFromIsRoundUp(c, g);
    RoundUpLeast(g, c.sector, c.total);
    ErasedBelow(st.flash, EraseFrom(c, g), EraseTo(c, g + WriteLen(c, n)), garbage);
    hide Erased;
  }

  lemma ErasedBelow(f: seq<Byte>, from: nat, to: nat, garbage: seq<Byte>)
    requires from <= |f|
    ensures Erased(f, from, to, Failed(garbage))[..from] == f[..from]
    ensures forall i :: 0 <= i < from ==> Erased(f, from, to, Failed(garbage))[i] == f[i]
  {
  }

  /** A scan that arrives at blank flash up to the end of the sector stops there or at its end. */
  lemma BlankStop(c: Config, f: seq<Byte>, g: nat, frames: nat)
    requires Geometry(c) && |f| == c.total && g <= c.total && g % c.sector != 0 && Blank(f, g, RoundUp(g, c.sector))
    ensures var e := Scan(Verdicts(c, f), g, frames); e.frames == frames && CursorClear(c, State(f, CursorOf(c, e)))
  {
    hide Verdicts;
    hide Scan;
    hide RoundUp;
    RoundUpMultiple(g, c.sector);
    ScanStopsAtBlank(c, f, g, frames);
    AlignedIsClear(c, f, g);
  }

  /** Power lost while the sectors for a record behind the lap are erased, whatever that leaves in them. */
  ghost predicate EraseLossExact(c: Config, lap: seq<Record>, r: Record)
    requires Geometry(c) && GoodRecord(c, r)
  {
    forall st, garbage | ReadyFor(c, st, lap, r) ::
      var (frames, st') := Recover(c, ReadyToProgram(c, st, |r.data|, Failed(garbage)));
      frames == |lap| && CursorClear(c, st')
  }

  /** The scan counts exactly the lap and leaves a clear cursor if and only if the record starts inside a
      sector: on a boundary, and so after every wrap, what is left may read as a record. */
  lemma EraseLossRecoversIff(c: Config, lap: seq<Record>, r: Record)
    requires Geometry(c) && GoodRecord(c, r) && (forall q :: q in lap ==> GoodRecord(c, q))
    requires LapLen(c, lap) + WriteLen(c, |r.data|) <= c.total
    ensures EraseLossExact(c, lap, r) <==> LapLen(c, lap) % c.sector != 0
  {
    hide Recover;
    hide ReadyToProgram;
    hide Image;
    hide LapLen;
    hide Start;
    if LapLen(c, lap) % c.sector != 0 {
      forall st, garbage | ReadyFor(c, st, lap, r)
        ensures var (frames, st') := Recover(c, ReadyToProgram(c, st, |r.data|, Failed(garbage)));
                frames == |lap| && CursorClear(c, st')
      {
        EraseLossCounts(c, st, lap, r, garbage);
      }
    } else {
      EraseLossMisleads(c, lap, r);
    }
  }

  lemma EraseLossCounts(c: Config, st: State, lap: seq<Record>, r: Record, garbage: seq<Byte>)
    requires Geometry(c) && GoodRecord(c, r) && (forall q :: q in lap ==> GoodRecord(c, q))
    requires ReadyFor(c, st, lap, r) && LapLen(c, lap) % c.sector != 0
    ensures var (frames, st') := Recover(c, ReadyToProgram(c, st, |r.data|, Failed(garbage)));
            frames == |lap| && CursorClear(c, st')
  {
    hide ReadyToProgram;
    hide Image;
    hide LapLen;
    hide Verdicts;
    hide Scan;
    hide RoundUp;
    var g := LapLen(c, lap);
    var f := ReadyToProgram(c, st, |r.data|, Failed(garbage));
    EraseLossKeeps(c, st, |r.data|, garbage);
    assert f[..g] == f[..RoundUp(g, c.sector)][..g] == st.flash[..g];
    LapSkipped(c, f, lap);
    BlankStop(c, f, g, |lap|);
  }

  lemma EmptyAtBoundary(c: Config, f: seq<Byte>, g: nat)
    requires Geometry(c) && |f| == c.total && g <= c.total && g % c.sector == 0
    ensures CursorClear(c, State(f, g))
  {
    RoundUpMultiple(g, c.sector);
  }

  lemma LeftAsItWas(f: seq<Byte>, from: nat, to: nat)
    ensures Erased(f, from, to, Failed(f)) == f
  {
  }

  /** What is left of the old contents may be just that record. */
  lemma EraseLossMisleads(c: Config, lap: seq<Record>, r: Record)
    requires Geometry(c) && GoodRecord(c, r) && (forall q :: q in lap ==> GoodRecord(c, q))
    requires LapLen(c, lap) + WriteLen(c, |r.data|) <= c.total && LapLen(c, lap) % c.sector == 0
    ensures !EraseLossExact(c, lap, r)
  {
    hide Encode;
    hide Image;
    hide LapLen;
    var g, len := LapLen(c, lap), WriteLen(c, |r.data|);
    var was := Image(c, lap) + Encode(c, r) + Fill(c.total - g - len);
    var st := State(was, g);
    assert was[..g] == Image(c, lap) && was[g..g + len] == Encode(c, r);
    EmptyAtBoundary(c, was, g);
    hide CursorClear;
    hide RoundUp;
    var f := ReadyToProgram(c, st, |r.data|, Failed(was));
    LeftAsItWas(was, EraseFrom(c, g), EraseTo(c, g + len));
    hide ReadyToProgram;
    FrameCounts(c, f, lap, r);
    assert ReadyFor(c, st, lap, r);
  }

  /** A frame right behind the lap is counted. */
  lemma FrameCounts(c: Config, f: seq<Byte>, lap: seq<Record>, r: Record)
    requires Geometry(c) && GoodRecord(c, r) && (forall q :: q in lap ==> GoodRecord(c, q))
    requires |f| == c.total && LapLen(c, lap) + WriteLen(c, |r.data|) <= c.total && f[..LapLen(c, lap)] == Image(c, lap)
    requires f[LapLen(c, lap)..LapLen(c, lap) + WriteLen(c, |r.data|)] == Encode(c, r)
    ensures Recover(c, f).0 > |lap|
  {
    hide Encode;
    hide Image;
    hide LapLen;
    hide Inspect;
    hide WriteLen;
    hide Verdicts;
    hide Scan;
    hide RoundUp;
    LapSkipped(c, f, lap);
    EncodedFrameScans(c, f, LapLen(c, lap), r);
    VerdictAt(c, f, LapLen(c, lap));
    OneMore(Verdicts(c, f), LapLen(c, lap), |lap|);
  }

  lemma OneMore(v: seq<Verdict>, off: nat, frames: nat)
    requires off + HEADER <= |v| && v[off].Frame?
    ensures Scan(v, off, frames) == Scan(v, off + v[off].advance, frames + 1) && Scan(v, off, frames).frames > frames
  {
    ScanCounts(v, off + v[off].advance, frames + 1);
  }

  // ---- What the return codes say ----

  /** Each code of a record write by its cause. */
  lemma WriteResultIff(c: Config, st: State, r: Record, x: Faults)
    requires Geometry(c) && |st.flash| == c.total && st.cursor <= c.total
    ensures var ret := Write(c, st, r, x).0;
            var n := |r.data|;
            var erased := !(NeedsErase(c, st, n) && x.erase.Failed?);
            && (ret == Param <==> n == 0)
            && (ret == TooLong <==> n > 0 && !Fits(c, n))
            && (ret == OpenError <==> Fits(c, n) && !x.opens)
            && (ret == EraseError <==> Fits(c, n) && x.opens && !erased)
            && (ret == WriteError <==> Fits(c, n) && x.opens && erased && !x.writes)
            && (ret == Ok <==> Fits(c, n) && x.opens && erased && x.writes)
            && ret != NotInit && ret != ReadError
  {
    hide Encode;
    hide Programmed;
    hide RoundUp;
  }

  /** What a write that fails leaves: the cursor where the record was to go, and of the flash at most the
      erase range changed. */
  lemma FailedWriteLeaves(c: Config, st: State, r: Record, x: Faults)
    requires Geometry(c) && |st.flash| == c.total && st.cursor <= c.total && Write(c, st, r, x).0 != Ok
    ensures var (ret, st') := Write(c, st, r, x);
            && st'.cursor == (if ret == Param || ret == TooLong then st.cursor else Start(c, st.cursor, |r.data|))
            && (ret == Param || ret == TooLong || ret == OpenError ==> st'.flash == st.flash)
            && (ret == EraseError ==> st'.flash == ReadyToProgram(c, st, |r.data|, x.erase))
            && (ret == WriteError ==> st'.flash == ReadyToProgram(c, st, |r.data|, Done))
  {
    hide Encode;
    hide Programmed;
    hide RoundUp;
    EraseNothing(st.flash, EraseFrom(c, Start(c, st.cursor, |r.data|)), EraseTo(c, Start(c, st.cursor, |r.data|) + WriteLen(c, |r.data|)));
    hide Erased;
  }

  // ---- How far a broken scan came ----

  datatype Place = Lost | At(off: nat)

  /** Where the scan stands after n frames. */
  function Walk(c: Config, f: seq<Byte>, n: nat): Place
    requires |f| == c.total
  {
    if n == 0 then At(0)
    else
      match Walk(c, f, n - 1)
      case Lost => Lost
      case At(off) =>
        if off + HEADER > c.total then Lost
        else match Inspect(c, f, off) case Frame(len) => At(off + len) case _ => Lost
  }

  /** The scan reads here, header or payload, where the driver fails. */
  predicate FailsAt(c: Config, f: seq<Byte>, off: nat, bad: set<nat>)
    requires |f| == c.total
  {
    off + HEADER <= c.total && (off in bad || (NeedsPayload(c, f, off) && off + HEADER in bad))
  }

  /** None of the reads in front of frame n fails. */
  ghost predicate NoneFails(c: Config, f: seq<Byte>, n: nat, bad: set<nat>)
    requires |f| == c.total
  {
    forall k :: 0 <= k < n && Walk(c, f, k).At? ==> !FailsAt(c, f, Walk(c, f, k).off, bad)
  }

  /** The first read that fails is one of those behind n frames. */
  ghost predicate FirstFailure(c: Config, f: seq<Byte>, n: nat, bad: set<nat>)
    requires |f| == c.total
  {
    Walk(c, f, n).At? && FailsAt(c, f, Walk(c, f, n).off, bad) && NoneFails(c, f, n, bad)
  }

  ghost predicate CountIsRight(c: Config, f: seq<Byte>, r: Reading, bad: set<nat>)
    requires |f| == c.total
  {
    if r.Broken? then FirstFailure(c, f, r.frames, bad)
    else Walk(c, f, r.e.frames) == At(r.e.offset) && NoneFails(c, f, r.e.frames + 1, bad)
  }

  lemma {:induction false} BrokenFrom(c: Config, f: seq<Byte>, off: nat, n: nat, bad: set<nat>)
    requires |f| == c.total && Walk(c, f, n) == At(off) && NoneFails(c, f, n, bad)
    ensures CountIsRight(c, f, ScanReading(c, f, off, n, bad), bad)
    decreases c.total - off
  {
    hide Inspect;
    hide NeedsPayload;
    if off + HEADER <= c.total && !FailsAt(c, f, off, bad) {
      var v := Inspect(c, f, off);
      if v.Frame? {
        assert Walk(c, f, n + 1) == At(off + v.advance);
        BrokenFrom(c, f, off + v.advance, n + 1, bad);
      }
    }
  }

  /** A scan that is broken off has counted exactly the frames in front of the first read that fails; one that
      is not has met no such read. */
  lemma BrokenCountsFrames(c: Config, f: seq<Byte>, bad: set<nat>)
    requires |f| == c.total
    ensures CountIsRight(c, f, ScanReading(c, f, 0, 0, bad), bad)
  {
    BrokenFrom(c, f, 0, 0, bad);
  }

  /** Why a scan stops. */
  lemma {:induction false} ScanStops(v: seq<Verdict>, off: nat, frames: nat)
    ensures var e := Scan(v, off, frames);
            if e.offset + HEADER > |v| then !e.dirty else !v[e.offset].Frame? && (e.dirty <==> v[e.offset].Dirty?)
    decreases |v| - off
  {
    if off + HEADER <= |v| && v[off].Frame? { ScanStops(v, off + v[off].advance, frames + 1); }
  }

  /** For every image: the frames counted stand back to back from the start, and the cursor is left where the next
      header is blank, on the next sector boundary when it is neither blank nor a frame, and where the frames end
      when no header fits behind them; if alignment put that behind the partition, at the start. */
  lemma RecoverIs(c: Config, f: seq<Byte>) returns (off: nat)
    requires Geometry(c) && |f| == c.total
    ensures var (frames, st) := Recover(c, f);
            && st.flash == f && Walk(c, f, frames) == At(off)
            && (off + HEADER <= c.total ==> !Inspect(c, f, off).Frame?)
            && st.cursor ==
               if off + HEADER > c.total then (if off <= c.total then off else 0)
               else if Blank(f, off, off + HEADER) then off
               else RoundUp(off, c.sector)
  {
    hide Inspect;
    hide RoundUp;
    hide Walk;
    var v := Verdicts(c, f);
    var e := Scan(v, 0, 0);
    off := e.offset;
    ScanStops(v, 0, 0);
    ScanUnbroken(c, f, 0, 0, {});
    BrokenCountsFrames(c, f, {});
    if off + HEADER <= c.total {
      VerdictAt(c, f, off);
      VerdictIs(c, f, off);
      RoundUpLeast(off, c.sector, c.total);
    }
  }
}
