/** Torn frames that span a sector boundary. A scan refuses such a frame and moves the cursor to the
    boundary, so the next record is written over the frame's second half, and can complete it. */
module FlashCompletion {
  import opened Bits
  import opened LittleEndian
  import opened FlashLog
  import opened FlashRounds
  import CrcEngine
  import CrcDetect
  import FlashLogDevice

  // ---- The frame checksum notices every change of one byte ----

  /** Changing byte i of s to v changes the checksum. */
  ghost predicate Notices(crc: seq<Byte> -> nat, s: seq<Byte>, i: nat, v: Byte) {
    i < |s| && s[i] != v ==> crc(s) % 0x1_0000 != crc(s[i := v]) % 0x1_0000
  }

  ghost predicate NoticesBytes(crc: seq<Byte> -> nat) {
    forall s: seq<Byte>, i: nat, v: Byte :: Notices(crc, s, i, v)
  }

  lemma {:induction false} WireAllConcat(refin: bool, a: seq<Byte>, b: seq<Byte>)
    ensures CrcDetect.WireAll(refin, a + b) == CrcDetect.WireAll(refin, a) + CrcDetect.WireAll(refin, b)
    decreases |b|
  {
    hide CrcDetect.Wire;
    if b == [] {
      assert a + b == a;
    } else {
      assert (a + b)[..|a + b| - 1] == a + b[..|b| - 1];
      WireAllConcat(refin, a, b[..|b| - 1]);
    }
  }

  lemma WireOne(refin: bool, v: Byte)
    ensures CrcDetect.WireAll(refin, [v]) == CrcDetect.Wire(refin, v, 8)
  {
    hide CrcDetect.Wire;
    assert [v][..0] == [];
    assert CrcDetect.WireAll(refin, []) == [];
  }

  lemma ByteIsBurst(refin: bool, s: seq<Byte>, i: nat, v: Byte)
    requires i < |s| && s[i] != v
    ensures CrcDetect.BurstApart(refin, s, s[i := v], 8 * i, 8)
  {
    hide CrcDetect.WireAll;
    hide CrcDetect.Wire;
    var a, z, e := s[..i], s[i + 1..], s[i := v];
    assert s == a + [s[i]] + z && e == a + [v] + z;
    WireAllConcat(refin, a + [s[i]], z);
    WireAllConcat(refin, a + [v], z);
    WireAllConcat(refin, a, [s[i]]);
    WireAllConcat(refin, a, [v]);
    WireOne(refin, s[i]);
    WireOne(refin, v);
    assert Pow2(8) == 256;
    CrcDetect.NumOfWire(refin, s[i], 8);
    CrcDetect.NumOfWire(refin, v, 8);
    MiddlesDiffer(CrcDetect.WireAll(refin, a), CrcDetect.Wire(refin, s[i], 8), CrcDetect.Wire(refin, v, 8),
                  CrcDetect.WireAll(refin, z));
  }

  lemma MiddlesDiffer(a: seq<nat>, x: seq<nat>, y: seq<nat>, z: seq<nat>)
    requires |x| == |y| && x != y
    ensures a + x + z != a + y + z
    ensures (a + x + z)[..|a|] == (a + y + z)[..|a|] && (a + x + z)[|a| + |x|..] == (a + y + z)[|a| + |x|..]
  {
    assert (a + x + z)[|a|..|a| + |x|] == x && (a + y + z)[|a|..|a| + |x|] == y;
  }

  lemma FrameChecksumNotices()
    ensures NoticesBytes(FlashLogDevice.FrameChecksum)
  {
    hide CrcEngine.Value;
    hide CrcDetect.BurstApart;
    var p := CrcEngine.Params(0xFFFF, false, false, 0, 0x1021, 16);
    forall s: seq<Byte>, i: nat, v: Byte ensures Notices(FlashLogDevice.FrameChecksum, s, i, v) {
      if i < |s| && s[i] != v {
        ByteIsBurst(false, s, i, v);
        CrcDetect.ValueDetectsBursts(p, s, s[i := v], 8 * i, 8);
        ValueFits(p, s);
        ValueFits(p, s[i := v]);
      }
    }
  }

  lemma ValueFits(p: CrcEngine.Params, s: seq<Byte>)
    requires p.width == 16
    ensures CrcEngine.Value(p, s) < 0x1_0000
  {
    hide Low;
    var reg := CrcEngine.Value(p, s);
    assert Pow2(16) == 0x1_0000 by { Pow2Add(8, 8); assert Pow2(8) == 256; }
    ValueIsLow(p, s);
  }

  lemma ValueIsLow(p: CrcEngine.Params, s: seq<Byte>)
    ensures CrcEngine.Value(p, s) < Pow2(p.width)
  {
    hide Low;
    hide Xor;
    if CrcEngine.Usable(p) {
      var reg := CrcEngine.Crc.Feed(CrcEngine.EngineModel(p), CrcEngine.StartReg(p), s);
      var out := Xor(if p.refin != p.refout then CrcEngine.Crc.Reflect(reg, p.width) else reg, p.xorOut);
      LowBound(out, p.width);
    }
  }

  // ---- A frame of which only the last byte is missing ----

  /** Magic and length in order, the checksum decides. */
  lemma DecidedByCrc(c: Config, f: seq<Byte>, g: nat, n: nat)
    requires g + HEADER + n <= |f| == c.total && 0 < n && HEADER + n <= c.ring
    requires U16(f[g], f[g + 1]) == MAGIC && U16(f[g + 2], f[g + 3]) == n
    ensures Inspect(c, f, g).Frame? <==>
            FrameCrc(c, f[g..g + 8], f[g + HEADER..g + HEADER + n]) == U16(f[g + 8], f[g + 9])
  {
    hide FrameCrc;
  }

  /** The parts of a frame torn just before its last data byte. */
  lemma LastMissing(c: Config, f: seq<Byte>, g: nat, r: Record)
    requires Geometry(c) && GoodRecord(c, r) && PartialFrame(c, f, g, r, HEADER + |r.data| - 1)
    ensures var n := |r.data|;
            && f[g..g + 8] == Head(r) && f[g + HEADER..g + HEADER + n] == r.data[n - 1 := ERASED]
            && U16(f[g], f[g + 1]) == MAGIC && U16(f[g + 2], f[g + 3]) == n
            && U16(f[g + 8], f[g + 9]) == FrameCrc(c, Head(r), r.data)
  {
    var e, n, k := Encode(c, r), |r.data|, HEADER + |r.data| - 1;
    EncodeLayout(c, r);
    hide Encode;
    hide FrameCrc;
    forall i | 0 <= i < HEADER + n ensures f[g + i] == if i < k then e[i] else ERASED {
      PartialBytes(c, f, g, r, k, i);
    }
    assert f[g..g + 8] == e[..8];
    var d, d' := f[g + HEADER..g + HEADER + n], r.data[n - 1 := ERASED];
    forall i | 0 <= i < n ensures d[i] == d'[i] {
      assert e[HEADER + i] == e[HEADER..HEADER + n][i];
    }
    assert d == d';
  }

  /** Such a frame is refused unless the missing byte is blank anyway. */
  lemma LastByteDecides(c: Config, f: seq<Byte>, g: nat, r: Record)
    requires Geometry(c) && NoticesBytes(c.crc) && GoodRecord(c, r) && r.data[|r.data| - 1] != ERASED
    requires PartialFrame(c, f, g, r, HEADER + |r.data| - 1)
    ensures !Inspect(c, f, g).Frame?
  {
    hide Inspect;
    hide PartialFrame;
    hide Head;
    var n := |r.data|;
    PartialSize(c, f, g, r);
    LastMissing(c, f, g, r);
    var s := Head(r) + r.data;
    assert s[8 + n - 1] == r.data[n - 1];
    assert Head(r) + r.data[n - 1 := ERASED] == s[8 + n - 1 := ERASED];
    assert Notices(c.crc, s, 8 + n - 1, ERASED);
    DecidedByCrc(c, f, g, n);
  }

  lemma PartialSize(c: Config, f: seq<Byte>, g: nat, r: Record)
    requires c.sector > 0 && PartialFrame(c, f, g, r, HEADER + |r.data| - 1)
    ensures g + HEADER + |r.data| <= |f| == c.total
  {
  }

  // ---- Exactly when a gap is sealed ----

  /** Every refused torn frame of n data bytes at g stays refused, whatever is written behind its sector. */
  ghost predicate AlwaysSeals(c: Config, g: nat, n: nat)
    requires c.sector > 0
  {
    forall r: Record, f: seq<Byte>, k: nat | Refused(c, f, g, r, k) && |r.data| == n :: Sealed(c, f, g)
  }

  ghost predicate Refused(c: Config, f: seq<Byte>, g: nat, r: Record, k: nat)
    requires c.sector > 0
  {
    GoodRecord(c, r) && PartialFrame(c, f, g, r, k) && 0 < k && g + HEADER <= |f| == c.total && !Inspect(c, f, g).Frame?
  }

  /** With a checksum that notices changed bytes, as the frame checksum does, a frame off a sector boundary
      does no lasting harm if and only if its header and data lie in one sector. */
  lemma AlwaysSealsIff(c: Config, g: nat, n: nat)
    requires Geometry(c) && NoticesBytes(c.crc) && Fits(c, n) && g + WriteLen(c, n) <= c.total && g % c.sector != 0
    ensures AlwaysSeals(c, g, n) <==> WithinSector(c, g, n)
  {
    hide Inspect;
    hide Sealed;
    hide PartialFrame;
    hide NoticesBytes;
    if WithinSector(c, g, n) {
      forall r: Record, f: seq<Byte>, k: nat | Refused(c, f, g, r, k) && |r.data| == n ensures Sealed(c, f, g) {
        TornSeals(c, f, g, r, k);
      }
    } else {
      Completed(c, g, n);
    }
  }

  /** The torn frame in blank flash. */
  function TornAt(c: Config, g: nat, r: Record, k: nat): seq<Byte>
    requires k <= WriteLen(c, |r.data|) && g + k <= c.total
  {
    Fill(g) + Encode(c, r)[..k] + Fill(c.total - g - k)
  }

  lemma TornAtIsPartial(c: Config, g: nat, r: Record, k: nat)
    requires Geometry(c) && k <= WriteLen(c, |r.data|) && g + WriteLen(c, |r.data|) <= c.total
    ensures |TornAt(c, g, r, k)| == c.total && PartialFrame(c, TornAt(c, g, r, k), g, r, k)
  {
    hide Encode;
    RoundUpLeast(g + WriteLen(c, |r.data|), c.sector, c.total);
    var f := TornAt(c, g, r, k);
    assert f[g..g + k] == Encode(c, r)[..k];
    assert forall i :: g + k <= i < c.total ==> f[i] == Fill(c.total - g - k)[i - g - k];
  }

  /** Torn before its last byte, and then completed behind the boundary as it was meant to be. */
  lemma Completed(c: Config, g: nat, n: nat)
    requires Geometry(c) && NoticesBytes(c.crc) && Fits(c, n) && g + WriteLen(c, n) <= c.total && g % c.sector != 0
    requires !WithinSector(c, g, n)
    ensures !AlwaysSeals(c, g, n)
  {
    hide Inspect;
    hide Encode;
    hide NoticesBytes;
    hide PartialFrame;
    var r := Record(seq(n, _ => 0), 0);
    var k, len, b := HEADER + n - 1, WriteLen(c, n), RoundUp(g, c.sector);
    var f, f' := TornAt(c, g, r, k), TornAt(c, g, r, len);
    TornAtIsPartial(c, g, r, k);
    TornAtIsPartial(c, g, r, len);
    LastByteDecides(c, f, g, r);
    CompleteVerdict(c, f', g, r);
    SameUpTo(c, g, r, k, len, b);
    assert Refused(c, f, g, r, k);
    RoundUpLeast(g, c.sector, c.total);
    assert !Stopping(c, f', g);
    assert !Sealed(c, f, g);
  }

  lemma SameUpTo(c: Config, g: nat, r: Record, k: nat, len: nat, b: nat)
    requires k <= len == WriteLen(c, |r.data|) && g + len <= c.total && g <= b <= g + k
    ensures |TornAt(c, g, r, k)| == |TornAt(c, g, r, len)| == c.total
    ensures TornAt(c, g, r, k)[..b] == TornAt(c, g, r, len)[..b]
  {
    hide Encode;
    var e := Encode(c, r);
    assert e[..len][..b - g] == e[..k][..b - g];
    assert TornAt(c, g, r, k)[..b] == Fill(g) + e[..k][..b - g];
    assert TornAt(c, g, r, len)[..b] == Fill(g) + e[..len][..b - g];
  }

  // ---- A later record completes the frame ----

  /** r, torn before its last byte, spans the boundary b behind its header; and its data behind b reads like
      the beginning of the record `next` written there. */
  ghost predicate Continues(c: Config, g: nat, r: Record, next: Record)
    requires c.sector > 0
  {
    var n, b := |r.data|, RoundUp(g, c.sector);
    && g % c.sector != 0 && g + HEADER <= b < g + HEADER + n
    && g + HEADER + n - b <= WriteLen(c, |next.data|)
    && r.data[b - g - HEADER..] == Encode(c, next)[..g + HEADER + n - b]
  }

  /** The log holds the lap, and r goes right behind it. */
  ghost predicate Before(c: Config, st: State, lap: seq<Record>, r: Record) {
    && Geometry(c) && NoticesBytes(c.crc) && Phase(c, st, lap) && st.cursor == LapLen(c, lap)
    && |st.flash| == c.total && st.cursor <= c.total
    && GoodRecord(c, r) && Start(c, st.cursor, |r.data|) == st.cursor && r.data[|r.data| - 1] != ERASED
  }

  /** The scan refuses the torn frame, counts the lap, and moves the cursor to the boundary. */
  lemma TornIsRefused(c: Config, st: State, lap: seq<Record>, r: Record)
    requires Before(c, st, lap, r)
    ensures var f := Torn(c, st, r, HEADER + |r.data| - 1);
            Recover(c, f) == (|lap|, State(f, RoundUp(st.cursor, c.sector)))
  {
    hide Phase;
    hide Torn;
    hide Encode;
    hide Verdicts;
    hide Scan;
    hide Image;
    hide LapLen;
    hide Inspect;
    hide NoticesBytes;
    hide RoundUp;
    var k := HEADER + |r.data| - 1;
    var f := Torn(c, st, r, k);
    PhaseShape(c, st, lap);
    TornBehindLap(c, st, lap, r, k);
    LastByteDecides(c, f, st.cursor, r);
    LapSkipped(c, f, lap);
    PartialRefused(c, f, st.cursor, r, k, |lap|);
    AlignedIsClear(c, f, st.cursor);
  }

  /** With the real checksum and real records: the frame that was refused is accepted once the next
      record is written at the boundary. */
  lemma LaterRecordCompletes(c: Config, st: State, lap: seq<Record>, r: Record, next: Record, x: Faults)
    requires Before(c, st, lap, r) && Continues(c, st.cursor, r, next) && GoodRecord(c, next)
    requires var st1 := Recover(c, Torn(c, st, r, HEADER + |r.data| - 1)).1;
             |st1.flash| == c.total && st1.cursor <= c.total && !Wraps(c, st1, |next.data|) && Write(c, st1, next, x).0 == Ok
    ensures var (frames, st1) := Recover(c, Torn(c, st, r, HEADER + |r.data| - 1));
            var f := Write(c, st1, next, x).1.flash;
            && frames == |lap| && st1.cursor == RoundUp(st.cursor, c.sector)
            && Inspect(c, f, st.cursor) == Frame(WriteLen(c, |r.data|)) && Recover(c, f).0 > |lap|
            && StartsWith(c, f, lap) && st1.cursor + WriteLen(c, |next.data|) <= c.total
            && f[st1.cursor..st1.cursor + WriteLen(c, |next.data|)] == Encode(c, next)
  {
    hide Phase;
    hide Torn;
    hide Encode;
    hide Image;
    hide LapLen;
    hide Inspect;
    hide NoticesBytes;
    hide RoundUp;
    hide Write;
    hide Recover;
    hide PartialFrame;
    var k, g, b := HEADER + |r.data| - 1, st.cursor, RoundUp(st.cursor, c.sector);
    TornIsRefused(c, st, lap, r);
    var t := Torn(c, st, r, k);
    PhaseShape(c, st, lap);
    TornBehindLap(c, st, lap, r, k);
    AlignedIsClear(c, t, g);
    var st1 := State(t, b);
    assert Start(c, b, |next.data|) == b;
    FrameInPlace(c, st1, next, x);
    WriteKeepsPrefix(c, st1, next, x);
    var f := Write(c, st1, next, x).1.flash;
    WholeAgain(c, t, f, g, b, r, next);
    FrameScans(c, f, g, r);
    assert f[..g] == f[..b][..g] == t[..b][..g] == t[..g];
    Accepted(c, f, lap, |r.data|);
  }

  /** The frame's first part from the torn write, the rest from the record at the boundary. */
  lemma WholeAgain(c: Config, t: seq<Byte>, f: seq<Byte>, g: nat, b: nat, r: Record, next: Record)
    requires Geometry(c) && GoodRecord(c, r) && PartialFrame(c, t, g, r, HEADER + |r.data| - 1)
    requires b == RoundUp(g, c.sector) && Continues(c, g, r, next)
    requires |f| == |t| && f[..b] == t[..b] && b + WriteLen(c, |next.data|) <= |f|
    requires f[b..b + WriteLen(c, |next.data|)] == Encode(c, next)
    ensures g + HEADER + |r.data| <= |f| && f[g..g + HEADER + |r.data|] == Encode(c, r)[..HEADER + |r.data|]
  {
    DataOf(c, r);
    hide Encode;
    hide FrameCrc;
    hide RoundUp;
    hide WriteLen;
    hide Blank;
    Rejoined(t, f, g, b, r.data, Encode(c, r), Encode(c, next));
  }

  lemma DataOf(c: Config, r: Record)
    requires |r.data| < 0x1_0000
    ensures Encode(c, r)[HEADER..HEADER + |r.data|] == r.data
  {
    EncodeLayout(c, r);
  }

  lemma Rejoined(t: seq<Byte>, f: seq<Byte>, g: nat, b: nat, data: seq<Byte>, e: seq<Byte>, e': seq<Byte>)
    requires g + HEADER <= b < g + HEADER + |data| <= |f| == |t| && HEADER + |data| <= |e|
    requires e[HEADER..HEADER + |data|] == data
    requires t[g..g + HEADER + |data| - 1] == e[..HEADER + |data| - 1] && f[..b] == t[..b]
    requires b + |e'| <= |f| && f[b..b + |e'|] == e'
    requires g + HEADER + |data| - b <= |e'| && data[b - g - HEADER..] == e'[..g + HEADER + |data| - b]
    ensures f[g..g + HEADER + |data|] == e[..HEADER + |data|]
  {
    var n := |data|;
    SameBefore(t, f, g, b, HEADER + n - 1, e);
    SliceOf(f, b, e', 0, g + HEADER + n - b);
    TwoParts(f, g, b, g + HEADER + n, e, n);
  }

  lemma SameBefore(t: seq<Byte>, f: seq<Byte>, g: nat, b: nat, k: nat, e: seq<Byte>)
    requires g <= b <= g + k <= |t| && |f| == |t| && f[..b] == t[..b] && k <= |e| && t[g..g + k] == e[..k]
    ensures f[g..b] == e[..b - g]
  {
    assert f[g..b] == f[..b][g..] == t[..b][g..] == t[g..b] == t[g..g + k][..b - g] == e[..k][..b - g] == e[..b - g];
  }

  lemma TwoParts(f: seq<Byte>, g: nat, b: nat, end: nat, e: seq<Byte>, n: nat)
    requires g + HEADER <= b <= end == g + HEADER + n <= |f| && end - g <= |e|
    requires f[g..b] == e[..b - g] && f[b..end] == e[HEADER..HEADER + n][b - g - HEADER..]
    ensures f[g..end] == e[..end - g]
  {
    assert e[b - g..HEADER + n] == e[HEADER..HEADER + n][b - g - HEADER..];
    assert f[g..end] == f[g..b] + f[b..end];
    assert e[..end - g] == e[..b - g] + e[b - g..end - g];
  }

  /** The scan counts the lap and a frame accepted behind it, and goes on behind that. */
  lemma Accepted(c: Config, f: seq<Byte>, lap: seq<Record>, n: nat)
    requires Geometry(c) && StartsWith(c, f, lap) && LapLen(c, lap) + HEADER <= c.total
    requires Inspect(c, f, LapLen(c, lap)) == Frame(WriteLen(c, n))
    ensures Recover(c, f).0 > |lap|
    ensures Scan(Verdicts(c, f), 0, 0) == Scan(Verdicts(c, f), LapLen(c, lap) + WriteLen(c, n), |lap| + 1)
  {
    hide Image;
    hide LapLen;
    hide Inspect;
    hide Scan;
    hide WriteLen;
    hide RoundUp;
    hide Verdicts;
    LapSkipped(c, f, lap);
    VerdictAt(c, f, LapLen(c, lap));
    OneMore(Verdicts(c, f), LapLen(c, lap), |lap|);
  }

  /** The plainest case: the one byte behind the boundary is 4, the first byte of every record. */
  lemma MagicContinues(c: Config, g: nat, r: Record, next: Record)
    requires Geometry(c) && GoodRecord(c, next) && g % c.sector != 0
    requires 0 < |r.data| && RoundUp(g, c.sector) == g + HEADER + |r.data| - 1 && r.data[|r.data| - 1] == MAGIC
    ensures Continues(c, g, r, next)
  {
    EncodeLayout(c, next);
    hide Encode;
    var n := |r.data|;
    assert r.data[n - 1..] == [r.data[n - 1]];
    assert Encode(c, next)[..1] == [Encode(c, next)[0]];
  }

  // ---- And the log can lose its safety by it ----

  /** Where the scan goes on behind the completed frame there are blank bytes inside the new record, and
      a byte that is not blank later in that sector. */
  ghost predicate BlankInside(c: Config, g: nat, r: Record, next: Record, p: nat)
    requires c.sector > 0
  {
    var b, end := RoundUp(g, c.sector), g + WriteLen(c, |r.data|);
    && b <= end && end + HEADER <= p < b + WriteLen(c, |next.data|) && p < RoundUp(end, c.sector)
    && Blank(Encode(c, next), end - b, end - b + HEADER)
    && Encode(c, next)[p - b] != ERASED
  }

  /** Then the next restart puts the cursor into the middle of a record, and a record written there is
      programmed over bytes that are not erased. */
  lemma CompletedFrameLosesSafety(c: Config, st: State, lap: seq<Record>, r: Record, next: Record, x: Faults, p: nat, more: Record)
    requires Before(c, st, lap, r) && Continues(c, st.cursor, r, next) && GoodRecord(c, next)
    requires BlankInside(c, st.cursor, r, next, p)
    requires var st1 := Recover(c, Torn(c, st, r, HEADER + |r.data| - 1)).1;
             |st1.flash| == c.total && st1.cursor <= c.total && !Wraps(c, st1, |next.data|) && Write(c, st1, next, x).0 == Ok
    requires var end := st.cursor + WriteLen(c, |r.data|);
             GoodRecord(c, more) && p < end + WriteLen(c, |more.data|) <= c.total
    ensures var st1 := Recover(c, Torn(c, st, r, HEADER + |r.data| - 1)).1;
            var st2 := Recover(c, Write(c, st1, next, x).1.flash).1;
            && |st2.flash| == c.total && st2.cursor == st.cursor + WriteLen(c, |r.data|)
            && !CursorClear(c, st2) && !StepSafe(c, st2, more, NO_FAULTS)
  {
    hide Phase;
    hide Torn;
    hide Encode;
    hide Image;
    hide LapLen;
    hide Inspect;
    hide NoticesBytes;
    hide Write;
    hide RoundUp;
    hide StepSafe;
    hide WriteLen;
    hide Recover;
    hide Continues;
    hide Before;
    var g, b, end := st.cursor, RoundUp(st.cursor, c.sector), st.cursor + WriteLen(c, |r.data|);
    LaterRecordCompletes(c, st, lap, r, next, x);
    BeforeMeans(c, st, lap, r);
    var st1 := Recover(c, Torn(c, st, r, HEADER + |r.data| - 1)).1;
    var f := Write(c, st1, next, x).1.flash;
    BytesOf(f, b, Encode(c, next));
    StopsThere(c, f, lap, |r.data|);
    ProgramsOver(c, f, end, p, more);
  }

  lemma BeforeMeans(c: Config, st: State, lap: seq<Record>, r: Record)
    requires Before(c, st, lap, r)
    ensures Geometry(c) && |st.flash| == c.total && st.cursor == LapLen(c, lap) <= c.total && GoodRecord(c, r)
  {
  }

  lemma BytesOf(f: seq<Byte>, b: nat, e: seq<Byte>)
    requires b + |e| <= |f| && f[b..b + |e|] == e
    ensures forall i :: b <= i < b + |e| ==> f[i] == e[i - b]
  {
    forall i | b <= i < b + |e| ensures f[i] == e[i - b] { assert f[b..b + |e|][i - b] == f[i]; }
  }

  /** A scan that takes the frame behind the lap and then meets a blank header stops there. */
  lemma StopsThere(c: Config, f: seq<Byte>, lap: seq<Record>, n: nat)
    requires Geometry(c) && StartsWith(c, f, lap) && LapLen(c, lap) + HEADER <= c.total
    requires Inspect(c, f, LapLen(c, lap)) == Frame(WriteLen(c, n))
    requires var end := LapLen(c, lap) + WriteLen(c, n); end + HEADER <= c.total && Blank(f, end, end + HEADER)
    ensures Recover(c, f).1 == State(f, LapLen(c, lap) + WriteLen(c, n))
  {
    hide Image;
    hide LapLen;
    hide Inspect;
    hide Scan;
    hide WriteLen;
    hide Verdicts;
    Accepted(c, f, lap, n);
    StopsInside(c, f, LapLen(c, lap) + WriteLen(c, n), |lap| + 1);
  }

  lemma StopsInside(c: Config, f: seq<Byte>, end: nat, frames: nat)
    requires Geometry(c) && |f| == c.total && end + HEADER <= c.total && forall i :: end <= i < end + HEADER ==> f[i] == ERASED
    ensures Scan(Verdicts(c, f), end, frames) == ScanEnd(frames, end, false)
  {
    ScanStopsAtBlank(c, f, end, frames);
  }

  lemma ProgramsOver(c: Config, f: seq<Byte>, end: nat, p: nat, more: Record)
    requires Geometry(c) && |f| == c.total && GoodRecord(c, more) && p < end + WriteLen(c, |more.data|) <= c.total
    requires end <= p < RoundUp(end, c.sector) && f[p] != ERASED
    ensures !CursorClear(c, State(f, end)) && !StepSafe(c, State(f, end), more, NO_FAULTS)
  {
    hide RoundUp;
    EraseFromIsRoundUp(c, end);
    RoundUpMultiple(end, c.sector);
    assert ReadyToProgram(c, State(f, end), |more.data|, Done)[p] == f[p];
  }

  // ---- One run, with the frame checksum of the code ----

  const FIRST := Record([0], 0)

  function TornRecord(): Record {
    Record(seq(22, _ => 0) + [4], 0)
  }

  function NextRecord(): Record {
    Record(seq(22, _ => 0) + seq(10, _ => ERASED) + [0], 0)
  }

  function Partition(): Config {
    Config(192, 64, 32, 64, FlashLogDevice.FrameChecksum)
  }

  function TheRun(): seq<Event> {
    [Wrote(Op(FIRST, NO_FAULTS)), Crashed(TornRecord(), 32), Wrote(Op(NextRecord(), NO_FAULTS)), Restarted]
  }

  /** Over any image: a record, a power loss in the next one right before its last byte, another record and a
      restart. The cursor is then not clear, and the next record is not programmed on erased bytes. */
  lemma RoundsFailWithoutTheCondition(image: seq<Byte>)
    requires |image| == 192
    ensures Geometry(Partition()) && GoodRecord(Partition(), FIRST)
    ensures var c, st := Partition(), RunEvents(Partition(), State(image, 0), TheRun());
            !CursorClear(c, st) && !StepSafe(c, st, FIRST, NO_FAULTS)
    ensures !SafeToTear(Partition(), 32, |TornRecord().data|)
  {
    hide FlashLogDevice.FrameChecksum;
    hide Phase;
    hide Write;
    hide Torn;
    hide Recover;
    hide StepSafe;
    hide CursorClear;
    var c, r, next := Partition(), TornRecord(), NextRecord();
    Layout();
    FrameChecksumNotices();
    var st := FirstRecord(c, image, FIRST);
    MagicContinues(c, 32, r, next);
    TornIsRefused(c, st, [FIRST], r);
    var st1 := Recover(c, Torn(c, st, r, 32)).1;
    AlignedIsClear(c, Torn(c, st, r, 32), 32);
    CleanWriteBlanksAhead(c, st1, next);
    InsideNext(c, next);
    CompletedFrameLosesSafety(c, st, [FIRST], r, next, NO_FAULTS, 106, FIRST);
    RunIs(c, image, st, st1);
  }

  lemma Layout()
    ensures var c := Partition();
            && Geometry(c) && WriteLen(c, 1) == 32 && WriteLen(c, 23) == 64 && WriteLen(c, 33) == 64
            && RoundUp(32, 64) == 64 && RoundUp(96, 64) == 128 && |TornRecord().data| == 23 && |NextRecord().data| == 33
  {
    assert 32 == Pow2(5);
  }

  lemma InsideNext(c: Config, next: Record)
    requires c == Partition() && next == NextRecord()
    ensures WriteLen(c, 33) == 64 && |next.data| == 33
    ensures Blank(Encode(c, next), 32, 42) && Encode(c, next)[42] == 0
  {
    hide Encode;
    hide FlashLogDevice.FrameChecksum;
    Layout();
    forall i | 32 <= i < 42 ensures Encode(c, next)[i] == ERASED { DataAt(c, next, i - HEADER); }
    DataAt(c, next, 32);
  }

  lemma DataAt(c: Config, r: Record, i: nat)
    requires i < |r.data| < 0x1_0000
    ensures Encode(c, r)[HEADER + i] == r.data[i]
  {
    EncodeLayout(c, r);
    hide Encode;
    hide FrameCrc;
    assert Encode(c, r)[HEADER..HEADER + |r.data|][i] == Encode(c, r)[HEADER + i];
  }

  lemma RunIs(c: Config, image: seq<Byte>, st: State, st1: State)
    requires c == Partition() && Geometry(c) && |image| == c.total
    requires st == Write(c, State(image, 0), FIRST, NO_FAULTS).1
    requires Fits(c, 23) && WriteLen(c, 23) == 64 && st1 == Recover(c, Torn(c, st, TornRecord(), 32)).1
    ensures |st1.flash| == c.total && st1.cursor <= c.total
    ensures RunEvents(c, State(image, 0), TheRun()) == Recover(c, Write(c, st1, NextRecord(), NO_FAULTS).1.flash).1
  {
    hide Write;
    hide Torn;
    hide Recover;
    hide FlashLogDevice.FrameChecksum;
    var es, s0 := TheRun(), State(image, 0);
    assert es[..3][..2] == es[..2] && es[..2][..1] == es[..1] && es[..1][..0] == [];
    assert RunEvents(c, s0, []) == s0;
    assert RunEvents(c, s0, es[..1]) == After(c, s0, es[0]) == st;
    assert RunEvents(c, s0, es[..2]) == After(c, st, es[1]) == st1;
    assert RunEvents(c, s0, es[..3]) == After(c, st1, es[2]);
  }
}
