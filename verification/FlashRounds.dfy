/** The flash log over any number of power losses: runs of record writes, crashes inside a record, and
    power-on scans, one after the other. */
module FlashRounds {
  import opened Bits
  import opened LittleEndian
  import opened FlashLog

  /** The partition starts with exactly these records. */
  ghost predicate StartsWith(c: Config, f: seq<Byte>, lap: seq<Record>) {
    && |f| == c.total && (forall r :: r in lap ==> GoodRecord(c, r))
    && LapLen(c, lap) <= c.total && f[..LapLen(c, lap)] == Image(c, lap)
  }

  // ---- Where a scan stops ----

  /** The scan takes no frame at g, and if it stops clean the rest of the sector is blank. */
  ghost predicate Stopping(c: Config, f: seq<Byte>, g: nat)
    requires c.sector > 0 && |f| == c.total
  {
    && (g + HEADER <= c.total ==> !Inspect(c, f, g).Frame?)
    && (g + HEADER > c.total || Inspect(c, f, g).Unwritten? ==> Blank(f, g, RoundUp(g, c.sector)))
  }

  /** It stops there whatever is written from the next sector boundary on. */
  ghost predicate Sealed(c: Config, f: seq<Byte>, g: nat)
    requires c.sector > 0
  {
    && RoundUp(g, c.sector) <= |f| == c.total
    && forall f': seq<Byte> :: |f'| == c.total && f'[..RoundUp(g, c.sector)] == f[..RoundUp(g, c.sector)] ==> Stopping(c, f', g)
  }

  lemma SealedStays(c: Config, f: seq<Byte>, f': seq<Byte>, g: nat)
    requires c.sector > 0 && Sealed(c, f, g) && |f'| == |f| && f'[..RoundUp(g, c.sector)] == f[..RoundUp(g, c.sector)]
    ensures Sealed(c, f', g) && Stopping(c, f', g)
  {
    hide Stopping;
  }

  /** Blank flash up to the boundary seals: its first byte is no magic. */
  lemma BlankSeals(c: Config, f: seq<Byte>, g: nat)
    requires Geometry(c) && |f| == c.total && g <= c.total && g % c.sector != 0 && Blank(f, g, RoundUp(g, c.sector))
    ensures Sealed(c, f, g)
  {
    hide FrameCrc;
    var b := RoundUp(g, c.sector);
    RoundUpLeast(g, c.sector, c.total);
    RoundUpMultiple(g, c.sector);
    forall f': seq<Byte> | |f'| == c.total && f'[..b] == f[..b] ensures Stopping(c, f', g) {
      forall i | g <= i < b ensures f'[i] == ERASED { assert f'[..b][i] == f[..b][i]; }
    }
  }

  /** What the scan makes of a partition that starts with a lap and then stops it. */
  lemma ScanStops(c: Config, f: seq<Byte>, lap: seq<Record>)
    requires Geometry(c) && StartsWith(c, f, lap) && Stopping(c, f, LapLen(c, lap))
    ensures var g := LapLen(c, lap);
            var (frames, st) := Recover(c, f);
            && frames == |lap| && st.flash == f && CursorClear(c, st)
            && (st.cursor == g || st.cursor == RoundUp(g, c.sector))
  {
    hide Inspect;
    hide Image;
    hide LapLen;
    var g := LapLen(c, lap);
    LapSkipped(c, f, lap);
    if g + HEADER <= c.total { VerdictAt(c, f, g); }
    AlignedIsClear(c, f, g);
  }

  // ---- The invariant over rounds ----

  /** The cursor stands right behind the lap, or the lap is followed by a sealed gap and the cursor
      stands beyond the sector boundary behind that. */
  ghost predicate Phase(c: Config, st: State, lap: seq<Record>)
    requires c.sector > 0
  {
    && StartsWith(c, st.flash, lap) && CursorClear(c, st)
    && (st.cursor == LapLen(c, lap) || (RoundUp(LapLen(c, lap), c.sector) <= st.cursor && Sealed(c, st.flash, LapLen(c, lap))))
  }

  lemma RegisteredPhase(c: Config, image: seq<Byte>)
    requires Geometry(c) && |image| == c.total
    ensures Phase(c, State(image, 0), [])
  {
    RoundUpMultiple(0, c.sector);
  }

  lemma HoldsPhase(c: Config, st: State, lap: seq<Record>)
    requires Geometry(c) && CursorClear(c, st) && Holds(c, st, lap)
    ensures Phase(c, st, lap)
  {
    assert |st.flash[..st.cursor]| == st.cursor;
  }

  /** A record of n bytes does not fit behind the cursor and goes to the start of the partition. */
  predicate Wraps(c: Config, st: State, n: nat) {
    Fits(c, n) && Start(c, st.cursor, n) != st.cursor
  }

  /** A write at or beyond the boundary leaves the gap as it is. */
  lemma WriteKeepsGap(c: Config, st: State, lap: seq<Record>, op: Op)
    requires Geometry(c) && Phase(c, st, lap) && st.cursor != LapLen(c, lap) && op.record.tick < 0x1_0000_0000
    requires !Wraps(c, st, |op.record.data|)
    ensures Phase(c, Write(c, st, op.record, op.faults).1, lap)
    ensures Write(c, st, op.record, op.faults).1.cursor != LapLen(c, lap)
  {
    hide Sealed;
    hide Image;
    hide LapLen;
    hide Encode;
    var r, x := op.record, op.faults;
    if Fits(c, |r.data|) {
      var g, b := LapLen(c, lap), RoundUp(LapLen(c, lap), c.sector);
      var st' := Write(c, st, r, x).1;
      WriteKeepsCursorClear(c, st, r, x);
      WriteKeepsPrefix(c, st, r, x);
      CursorAdvances(c, st, r, x);
      assert st'.flash[..b] == st'.flash[..st.cursor][..b] == st.flash[..b];
      assert st'.flash[..g] == st'.flash[..b][..g] == st.flash[..g];
      SealedStays(c, st.flash, st'.flash, g);
    }
  }

  lemma CursorAdvances(c: Config, st: State, r: Record, x: Faults)
    requires Geometry(c) && CursorClear(c, st) && Fits(c, |r.data|)
    ensures Write(c, st, r, x).1.cursor >= Start(c, st.cursor, |r.data|)
  {
  }

  /** After a wrap nothing but the flash counts: it is the same write with the cursor at 0. */
  lemma WrapForgets(c: Config, st: State, r: Record, x: Faults, k: nat)
    requires Geometry(c) && |st.flash| == c.total && st.cursor <= c.total && Fits(c, |r.data|) && k <= WriteLen(c, |r.data|)
    requires Start(c, st.cursor, |r.data|) == 0
    ensures Write(c, st, r, x) == Write(c, State(st.flash, 0), r, x)
    ensures Torn(c, st, r, k) == Torn(c, State(st.flash, 0), r, k)
    ensures Phase(c, State(st.flash, 0), []) && Start(c, 0, |r.data|) == 0
  {
    hide Encode;
    hide Programmed;
    hide WriteLen;
    hide Erased;
    RegisteredPhase(c, st.flash);
  }

  /** The lap after a record write. Behind a gap nothing is added to it until the next wrap. */
  function WriteLap(c: Config, st: State, lap: seq<Record>, op: Op): seq<Record>
    requires Geometry(c) && |st.flash| == c.total && st.cursor <= c.total
  {
    if st.cursor != LapLen(c, lap) && !Wraps(c, st, |op.record.data|) then lap else NextLap(c, st, lap, op)
  }

  /** A record write keeps the phase, with any driver answers. */
  lemma WriteKeepsPhase(c: Config, st: State, lap: seq<Record>, op: Op)
    requires Geometry(c) && Phase(c, st, lap) && op.record.tick < 0x1_0000_0000
    requires |st.flash| == c.total && st.cursor <= c.total
    ensures Phase(c, Write(c, st, op.record, op.faults).1, WriteLap(c, st, lap, op))
  {
    hide Phase;
    hide Write;
    hide Image;
    hide LapLen;
    hide NextLap;
    PhaseShape(c, st, lap);
    var n := |op.record.data|;
    if st.cursor == LapLen(c, lap) {
      CleanWrite(c, st, lap, op);
    } else if !Wraps(c, st, n) {
      WriteKeepsGap(c, st, lap, op);
    } else {
      WrapForgets(c, st, op.record, op.faults, 0);
      PhaseShape(c, State(st.flash, 0), []);
      EmptyLap(c);
      CleanWrite(c, State(st.flash, 0), [], op);
      WrappedLap(c, st, lap, op);
    }
  }

  /** A wrap starts the lap anew. */
  lemma WrappedLap(c: Config, st: State, lap: seq<Record>, op: Op)
    requires Geometry(c) && |st.flash| == c.total && st.cursor <= c.total && Wraps(c, st, |op.record.data|)
    ensures NextLap(c, st, lap, op) == NextLap(c, State(st.flash, 0), [], op)
  {
    hide Write;
    WrapForgets(c, st, op.record, op.faults, 0);
  }

  lemma EmptyLap(c: Config)
    ensures LapLen(c, []) == 0 && Image(c, []) == []
  {
  }

  lemma PhaseShape(c: Config, st: State, lap: seq<Record>)
    requires c.sector > 0 && Phase(c, st, lap)
    ensures |st.flash| == c.total && st.cursor <= c.total && CursorClear(c, st) && StartsWith(c, st.flash, lap)
    ensures st.cursor == LapLen(c, lap) ==> Holds(c, st, lap)
  {
  }

  lemma CleanWrite(c: Config, st: State, lap: seq<Record>, op: Op)
    requires Geometry(c) && Phase(c, st, lap) && st.cursor == LapLen(c, lap) && op.record.tick < 0x1_0000_0000
    requires |st.flash| == c.total && st.cursor <= c.total
    ensures Phase(c, Write(c, st, op.record, op.faults).1, NextLap(c, st, lap, op))
  {
    hide Phase;
    hide Holds;
    hide CursorClear;
    hide Write;
    PhaseShape(c, st, lap);
    WriteKeepsLap(c, st, lap, op);
    WriteKeepsCursorClear(c, st, op.record, op.faults);
    HoldsPhase(c, Write(c, st, op.record, op.faults).1, NextLap(c, st, lap, op));
  }

  // ---- A crash inside a record ----

  /** Header and data of a frame at `start` lie in one sector, or it begins one. */
  predicate WithinSector(c: Config, start: nat, n: nat)
    requires c.sector > 0
  {
    start % c.sector == 0 || start + HEADER + n <= RoundUp(start, c.sector)
  }

  /** What a record must be like so that a power loss while it is programmed does no lasting harm. */
  predicate SafeToTear(c: Config, cursor: nat, n: nat)
    requires c.sector > 0
  {
    var start := Start(c, cursor, n);
    NothingBehind(c, start + WriteLen(c, n)) && WithinSector(c, start, n)
  }

  /** The verdict depends on nothing but the header and the data it announces. */
  lemma InspectLocal(c: Config, f: seq<Byte>, f': seq<Byte>, g: nat, e: nat)
    requires g + HEADER <= e <= |f| == |f'| == c.total && f'[g..e] == f[g..e]
    requires var len := U16(f[g + 2], f[g + 3]); g + HEADER + len <= e || HEADER + len > c.ring
    ensures Inspect(c, f', g) == Inspect(c, f, g)
  {
    hide FrameCrc;
    forall i | g <= i < e ensures f'[i] == f[i] { assert f'[g..e][i - g] == f[g..e][i - g]; }
    var len := U16(f[g + 2], f[g + 3]);
    assert f'[g..g + 8] == f[g..g + 8];
    if g + HEADER + len <= e { assert f'[g + HEADER..g + HEADER + len] == f[g + HEADER..g + HEADER + len]; }
  }

  /** A torn frame that was refused stays refused if its header and data lie in one sector. */
  lemma TornSeals(c: Config, f: seq<Byte>, g: nat, r: Record, k: nat)
    requires Geometry(c) && GoodRecord(c, r) && PartialFrame(c, f, g, r, k) && 0 < k
    requires g + HEADER + |r.data| <= RoundUp(g, c.sector) && !Inspect(c, f, g).Frame?
    ensures Sealed(c, f, g)
  {
    hide Encode;
    hide Inspect;
    var b := RoundUp(g, c.sector);
    RoundUpLeast(g, c.sector, c.total);
    PartialVerdict(c, f, g, r, k);
    TornLength(c, f, g, r, k);
    forall f': seq<Byte> | |f'| == c.total && f'[..b] == f[..b] ensures Stopping(c, f', g) {
      assert f'[g..b] == f'[..b][g..] == f[..b][g..] == f[g..b];
      InspectLocal(c, f, f', g, b);
    }
  }

  /** The length a torn header announces is its own or far too long, as long as its magic stands. */
  lemma TornLength(c: Config, f: seq<Byte>, g: nat, r: Record, k: nat)
    requires Geometry(c) && GoodRecord(c, r) && PartialFrame(c, f, g, r, k)
    ensures var len := U16(f[g + 2], f[g + 3]); len == |r.data| || HEADER + len > c.ring
  {
    EncodeLayout(c, r);
    PartialBytes(c, f, g, r, k, 2);
    PartialBytes(c, f, g, r, k, 3);
  }

  /** The record the scan sees in a torn frame it accepts. */
  function Seen(c: Config, f: seq<Byte>, g: nat, n: nat): Record
    requires g + HEADER + n <= |f|
  {
    Record(f[g + HEADER..g + HEADER + n], U32(f[g + 4..g + 8]))
  }

  lemma Le32OfU32(s: seq<Byte>)
    requires |s| == 4
    ensures U32(s) < 0x1_0000_0000 && Le32(U32(s)) == s
  {
    var a, b := U16(s[0], s[1]), U16(s[2], s[3]);
    assert U32(s) / 0x1_0000 == b && U32(s) % 0x1_0000 == a;
    assert Le16(U32(s)) == [s[0], s[1]] by { LowBytes(U32(s), s[0], s[1], b); }
    assert Le16(b) == [s[2], s[3]];
  }

  lemma LowBytes(x: nat, lo: Byte, hi: Byte, rest: nat)
    requires x == lo + 256 * hi + 0x1_0000 * rest
    ensures Le16(x) == [lo, hi]
  {
    DivModUnique(x, 256, hi + 256 * rest, lo);
    DivModUnique(hi + 256 * rest, 256, rest, hi);
  }

  /** An accepted frame is the encoding of the record the scan sees in it. */
  lemma AcceptedIsEncoding(c: Config, f: seq<Byte>, g: nat, r: Record, k: nat)
    requires Geometry(c) && GoodRecord(c, r) && PartialFrame(c, f, g, r, k) && Inspect(c, f, g).Frame?
    ensures var n := |r.data|;
            && GoodRecord(c, Seen(c, f, g, n)) && |Seen(c, f, g, n).data| == n
            && f[g..g + WriteLen(c, n)] == Encode(c, Seen(c, f, g, n))
  {
    hide Encode;
    hide FrameCrc;
    hide Le32;
    hide U32;
    var n := |r.data|;
    var seen := Seen(c, f, g, n);
    PartialVerdict(c, f, g, r, k);
    Le32OfU32(f[g + 4..g + 8]);
    HeaderStands(c, f, g, r, k);
    PaddingStands(c, f, g, r, k);
    FrameParts(c, f, g, seen);
  }

  /** Magic and length stand once four bytes are written. */
  lemma FirstFour(c: Config, f: seq<Byte>, g: nat, r: Record, k: nat)
    requires Geometry(c) && GoodRecord(c, r) && PartialFrame(c, f, g, r, k) && k >= 4
    ensures f[g..g + 4] == Le16(MAGIC) + Le16(|r.data|)
  {
    hide Encode;
    hide FrameCrc;
    HeadBytes(c, r);
    assert f[g..g + 4] == f[g..g + k][..4] == Encode(c, r)[..k][..4] == Encode(c, r)[0..4];
  }

  /** The first eight bytes are the head of the record seen, and the checksum field matches. */
  lemma HeaderStands(c: Config, f: seq<Byte>, g: nat, r: Record, k: nat)
    requires Geometry(c) && GoodRecord(c, r) && PartialFrame(c, f, g, r, k) && Inspect(c, f, g).Frame? && k >= 4
    requires Le32(U32(f[g + 4..g + 8])) == f[g + 4..g + 8]
    ensures var seen := Seen(c, f, g, |r.data|);
            && f[g..g + 8] == Head(seen)
            && f[g + 8..g + 10] == Le16(FrameCrc(c, Head(seen), seen.data))
  {
    hide Encode;
    hide FrameCrc;
    hide Le32;
    hide U32;
    var n := |r.data|;
    var seen := Seen(c, f, g, n);
    FirstFour(c, f, g, r, k);
    assert f[g..g + 8] == f[g..g + 4] + f[g + 4..g + 8];
    assert f[g + 2..g + 4] == f[g..g + 4][2..] == Le16(n);
    assert f[g + 2] == Le16(n)[0] && f[g + 3] == Le16(n)[1];
    Le16RoundTrip(n);
    CrcMatches(c, f, g, n);
  }

  lemma CrcMatches(c: Config, f: seq<Byte>, g: nat, n: nat)
    requires g + HEADER <= |f| == c.total && Inspect(c, f, g).Frame? && U16(f[g + 2], f[g + 3]) == n
    ensures g + HEADER + n <= |f|
    ensures f[g + 8..g + 10] == Le16(FrameCrc(c, f[g..g + 8], f[g + HEADER..g + HEADER + n]))
  {
    hide FrameCrc;
    LowBytes(U16(f[g + 8], f[g + 9]), f[g + 8], f[g + 9], 0);
  }

  lemma HeadBytes(c: Config, r: Record)
    requires |r.data| < 0x1_0000
    ensures Encode(c, r)[0..4] == Le16(MAGIC) + Le16(|r.data|)
  {
    EncodeLayout(c, r);
    hide Encode;
    hide Le32;
    assert Encode(c, r)[0..4] == Encode(c, r)[..8][0..4] == Head(r)[0..4];
  }

  /** The padding is blank, written or not. */
  lemma PaddingStands(c: Config, f: seq<Byte>, g: nat, r: Record, k: nat)
    requires Geometry(c) && GoodRecord(c, r) && PartialFrame(c, f, g, r, k)
    ensures f[g + HEADER + |r.data|..g + WriteLen(c, |r.data|)] == Fill(WriteLen(c, |r.data|) - HEADER - |r.data|)
  {
    var n, len := |r.data|, WriteLen(c, |r.data|);
    forall j | g + HEADER + n <= j < g + len
      ensures f[j] == ERASED
    {
      PartialBytes(c, f, g, r, k, j - g);
      EncodePadding(c, r, j - g);
    }
  }

  lemma EncodePadding(c: Config, r: Record, i: nat)
    requires HEADER + |r.data| <= i < WriteLen(c, |r.data|)
    ensures Encode(c, r)[i] == ERASED
  {
  }

  lemma FrameParts(c: Config, f: seq<Byte>, g: nat, r: Record)
    requires g + WriteLen(c, |r.data|) <= |f|
    requires f[g..g + 8] == Head(r) && f[g + 8..g + 10] == Le16(FrameCrc(c, Head(r), r.data))
    requires f[g + HEADER..g + HEADER + |r.data|] == r.data
    requires f[g + HEADER + |r.data|..g + WriteLen(c, |r.data|)] == Fill(WriteLen(c, |r.data|) - HEADER - |r.data|)
    ensures f[g..g + WriteLen(c, |r.data|)] == Encode(c, r)
  {
    hide FrameCrc;
    hide Le32;
    hide Head;
    var n, len := |r.data|, WriteLen(c, |r.data|);
    assert f[g..g + len] == f[g..g + 8] + f[g + 8..g + 10] + f[g + 10..g + 10 + n] + f[g + 10 + n..g + len];
  }

  /** The scan after a crash in a record written right behind the lap: it finds the lap, and the record
      it sees in the torn frame if it accepts that. */
  lemma CleanCrash(c: Config, f: seq<Byte>, lap: seq<Record>, r: Record, k: nat)
    requires Geometry(c) && StartsWith(c, f, lap) && GoodRecord(c, r) && PartialFrame(c, f, LapLen(c, lap), r, k)
    requires NothingBehind(c, LapLen(c, lap) + WriteLen(c, |r.data|)) && WithinSector(c, LapLen(c, lap), |r.data|)
    ensures var g := LapLen(c, lap);
            var after := if Inspect(c, f, g).Frame? then lap + [Seen(c, f, g, |r.data|)] else lap;
            Phase(c, Recover(c, f).1, after) && Recover(c, f).0 == |after|
  {
    hide Inspect;
    hide Encode;
    hide Image;
    hide LapLen;
    hide Recover;
    hide Phase;
    if Inspect(c, f, LapLen(c, lap)).Frame? {
      AcceptedCrash(c, f, lap, r, k);
    } else {
      RefusedCrash(c, f, lap, r, k);
    }
  }

  lemma RefusedCrash(c: Config, f: seq<Byte>, lap: seq<Record>, r: Record, k: nat)
    requires Geometry(c) && StartsWith(c, f, lap) && GoodRecord(c, r) && PartialFrame(c, f, LapLen(c, lap), r, k)
    requires WithinSector(c, LapLen(c, lap), |r.data|) && !Inspect(c, f, LapLen(c, lap)).Frame?
    ensures Phase(c, Recover(c, f).1, lap) && Recover(c, f).0 == |lap|
  {
    hide Inspect;
    hide Encode;
    hide Image;
    hide LapLen;
    hide Recover;
    hide Sealed;
    hide Stopping;
    var g := LapLen(c, lap);
    RefusedStops(c, f, g, r, k);
    ScanStops(c, f, lap);
    RoundUpMultiple(g, c.sector);
    if g % c.sector != 0 {
      if k > 0 { TornSeals(c, f, g, r, k); } else { BlankFrameSeals(c, f, g, r); }
    }
  }

  lemma BlankFrameSeals(c: Config, f: seq<Byte>, g: nat, r: Record)
    requires Geometry(c) && PartialFrame(c, f, g, r, 0) && g % c.sector != 0
    ensures Sealed(c, f, g)
  {
    RoundUpMultiple(g + WriteLen(c, |r.data|), c.sector);
    RoundUpLeast(g, c.sector, RoundUp(g + WriteLen(c, |r.data|), c.sector));
    BlankSeals(c, f, g);
  }

  lemma RefusedStops(c: Config, f: seq<Byte>, g: nat, r: Record, k: nat)
    requires Geometry(c) && GoodRecord(c, r) && PartialFrame(c, f, g, r, k) && !Inspect(c, f, g).Frame?
    ensures Stopping(c, f, g)
  {
    hide Encode;
    PartialVerdict(c, f, g, r, k);
    hide Inspect;
    RoundUpMultiple(g + WriteLen(c, |r.data|), c.sector);
    RoundUpLeast(g, c.sector, RoundUp(g + WriteLen(c, |r.data|), c.sector));
  }

  lemma AcceptedCrash(c: Config, f: seq<Byte>, lap: seq<Record>, r: Record, k: nat)
    requires Geometry(c) && StartsWith(c, f, lap) && GoodRecord(c, r) && PartialFrame(c, f, LapLen(c, lap), r, k)
    requires NothingBehind(c, LapLen(c, lap) + WriteLen(c, |r.data|)) && Inspect(c, f, LapLen(c, lap)).Frame?
    ensures var after := lap + [Seen(c, f, LapLen(c, lap), |r.data|)];
            Phase(c, Recover(c, f).1, after) && Recover(c, f).0 == |after|
  {
    hide Inspect;
    hide Encode;
    hide Recover;
    hide Sealed;
    hide Stopping;
    hide Image;
    hide LapLen;
    hide WriteLen;
    hide RoundUp;
    hide NothingBehind;
    var g, n := LapLen(c, lap), |r.data|;
    var end := g + WriteLen(c, n);
    AcceptedIsEncoding(c, f, g, r, k);
    var seen := Seen(c, f, g, n);
    LapExtends(c, f, lap, seen);
    AcceptedStops(c, f, g, r, k);
    ScanStops(c, f, lap + [seen]);
    RoundUpMultiple(end, c.sector);
    if end % c.sector != 0 { BlankSeals(c, f, end); }
  }

  lemma LapExtends(c: Config, f: seq<Byte>, lap: seq<Record>, r: Record)
    requires StartsWith(c, f, lap) && GoodRecord(c, r)
    requires LapLen(c, lap) + WriteLen(c, |r.data|) <= c.total
    requires f[LapLen(c, lap)..LapLen(c, lap) + WriteLen(c, |r.data|)] == Encode(c, r)
    ensures StartsWith(c, f, lap + [r]) && LapLen(c, lap + [r]) == LapLen(c, lap) + WriteLen(c, |r.data|)
  {
    hide Encode;
    var g, end := LapLen(c, lap), LapLen(c, lap) + WriteLen(c, |r.data|);
    assert (lap + [r])[..|lap|] == lap;
    assert f[..end] == f[..g] + f[g..end];
  }

  lemma AcceptedStops(c: Config, f: seq<Byte>, g: nat, r: Record, k: nat)
    requires Geometry(c) && GoodRecord(c, r) && PartialFrame(c, f, g, r, k)
    requires NothingBehind(c, g + WriteLen(c, |r.data|))
    ensures var end := g + WriteLen(c, |r.data|);
            && Blank(f, end, RoundUp(end, c.sector)) && Stopping(c, f, end)
  {
    hide Encode;
    hide FrameCrc;
    var end := g + WriteLen(c, |r.data|);
    RoundUpMultiple(end, c.sector);
  }

  // ---- Events ----

  /** A record write with any driver answers; a power loss while its sectors are erased, which leaves
      anything in them, or k bytes into programming it, then the scan; or a restart between records,
      then the scan. */
  datatype Event = Wrote(op: Op) | CutErase(record: Record, garbage: seq<Byte>) | Crashed(record: Record, k: nat) | Restarted

  predicate Tears(c: Config, e: Event) {
    e.Crashed? && Fits(c, |e.record.data|) && e.k <= WriteLen(c, |e.record.data|)
  }

  function After(c: Config, st: State, e: Event): (r: State)
    requires Geometry(c) && |st.flash| == c.total && st.cursor <= c.total
    ensures |r.flash| == c.total && r.cursor <= c.total
  {
    match e
    case Wrote(op) => Write(c, st, op.record, op.faults).1
    case CutErase(r, garbage) => Recover(c, ReadyToProgram(c, st, |r.data|, FlashLog.Failed(garbage))).1
    case Crashed(r, k) => Recover(c, if Tears(c, e) then Torn(c, st, r, k) else st.flash).1
    case Restarted => Recover(c, st.flash).1
  }

  /** No old frame stands where the scan arrives behind the lap. Behind a gap it never gets to the cursor. */
  predicate NoFrameBehind(c: Config, st: State, lap: seq<Record>)
    requires |st.flash| == c.total
  {
    st.cursor == LapLen(c, lap) && st.cursor + HEADER <= c.total ==> !Inspect(c, st.flash, st.cursor).Frame?
  }

  /** Ticks are 32 bits, a record whose erase is cut off starts inside a sector, a record that is torn is
      safe to tear, and a restart between records meets no old frame behind the lap. */
  ghost predicate Allowed(c: Config, st: State, lap: seq<Record>, e: Event)
    requires Geometry(c) && |st.flash| == c.total
  {
    match e
    case Wrote(op) => op.record.tick < 0x1_0000_0000
    case CutErase(r, _) => GoodRecord(c, r) && Start(c, st.cursor, |r.data|) % c.sector != 0
    case Crashed(r, k) => GoodRecord(c, r) && k <= WriteLen(c, |r.data|) && SafeToTear(c, st.cursor, |r.data|)
    case Restarted => NoFrameBehind(c, st, lap)
  }

  /** The lap after a power loss k bytes into r: what it was, or empty after a wrap; and the record the scan
      sees in the torn frame if it accepts that. */
  function CrashLap(c: Config, st: State, lap: seq<Record>, r: Record, k: nat): seq<Record>
    requires Geometry(c) && |st.flash| == c.total && st.cursor <= c.total
    requires Fits(c, |r.data|) && k <= WriteLen(c, |r.data|)
  {
    var kept := if Wraps(c, st, |r.data|) then [] else lap;
    var f, start := Torn(c, st, r, k), Start(c, st.cursor, |r.data|);
    if start == LapLen(c, kept) && Inspect(c, f, start).Frame? then kept + [Seen(c, f, start, |r.data|)] else kept
  }

  lemma CrashKeepsPhase(c: Config, st: State, lap: seq<Record>, r: Record, k: nat)
    requires Geometry(c) && Phase(c, st, lap) && GoodRecord(c, r) && k <= WriteLen(c, |r.data|)
    requires SafeToTear(c, st.cursor, |r.data|) && |st.flash| == c.total && st.cursor <= c.total
    ensures var (frames, st') := Recover(c, Torn(c, st, r, k));
            var after := CrashLap(c, st, lap, r, k);
            Phase(c, st', after) && frames == |after|
  {
    hide Phase;
    hide Recover;
    hide Torn;
    hide Image;
    hide LapLen;
    hide Encode;
    hide Inspect;
    hide NothingBehind;
    hide WithinSector;
    PhaseShape(c, st, lap);
    var start := Start(c, st.cursor, |r.data|);
    if st.cursor == LapLen(c, lap) && start == st.cursor {
      TornBehindLap(c, st, lap, r, k);
      CleanCrash(c, Torn(c, st, r, k), lap, r, k);
    } else if start == st.cursor {
      GapCrash(c, st, lap, r, k);
    } else {
      WrapForgets(c, st, r, NO_FAULTS, k);
      EmptyLap(c);
      PhaseShape(c, State(st.flash, 0), []);
      TornBehindLap(c, State(st.flash, 0), [], r, k);
      CleanCrash(c, Torn(c, st, r, k), [], r, k);
    }
  }

  /** No record of the lap is lost by a crash, at most the torn one is added, not before its length stands,
      and certainly, as it was meant, once all of it is written. */
  lemma CrashLapIs(c: Config, st: State, lap: seq<Record>, r: Record, k: nat)
    requires Geometry(c) && Phase(c, st, lap) && GoodRecord(c, r) && k <= WriteLen(c, |r.data|)
    requires |st.flash| == c.total && st.cursor <= c.total
    ensures var kept, after := if Wraps(c, st, |r.data|) then [] else lap, CrashLap(c, st, lap, r, k);
            && kept <= after && |after| <= |kept| + 1
            && (k < 4 ==> after == kept)
            && (k == WriteLen(c, |r.data|) && Start(c, st.cursor, |r.data|) == LapLen(c, kept) ==> after == kept + [r])
  {
    hide Phase;
    hide Torn;
    hide Encode;
    hide Inspect;
    hide LapLen;
    PhaseShape(c, st, lap);
    var f, start, n := Torn(c, st, r, k), Start(c, st.cursor, |r.data|), |r.data|;
    TornBytes(c, st, r, k);
    PartialVerdict(c, f, start, r, k);
    if k == WriteLen(c, n) {
      CompleteVerdict(c, f, start, r);
      WholeIsSeen(c, f, start, r);
    }
  }

  lemma WholeIsSeen(c: Config, f: seq<Byte>, g: nat, r: Record)
    requires Geometry(c) && GoodRecord(c, r) && PartialFrame(c, f, g, r, WriteLen(c, |r.data|))
    ensures Seen(c, f, g, |r.data|) == r
  {
    hide Le32;
    hide Le16;
    hide U32;
    var e, n := Encode(c, r), |r.data|;
    assert e[..|e|] == e;
    EncodeLayout(c, r);
    assert e[4..8] == e[..8][4..8] == Le32(r.tick);
    hide Encode;
    SliceOf(f, g, e, HEADER, HEADER + n);
    SliceOf(f, g, e, 4, 8);
    Le32RoundTrip(r.tick);
  }

  lemma TornBehindLap(c: Config, st: State, lap: seq<Record>, r: Record, k: nat)
    requires Geometry(c) && StartsWith(c, st.flash, lap) && CursorClear(c, st) && st.cursor == LapLen(c, lap)
    requires GoodRecord(c, r) && k <= WriteLen(c, |r.data|) && Start(c, st.cursor, |r.data|) == st.cursor
    ensures StartsWith(c, Torn(c, st, r, k), lap) && PartialFrame(c, Torn(c, st, r, k), LapLen(c, lap), r, k)
  {
    hide Image;
    hide LapLen;
    hide Encode;
    hide Torn;
    TornBytes(c, st, r, k);
  }

  /** A crash beyond a gap: the scan stops at the gap as before. */
  lemma GapCrash(c: Config, st: State, lap: seq<Record>, r: Record, k: nat)
    requires Geometry(c) && Phase(c, st, lap) && st.cursor != LapLen(c, lap) && |st.flash| == c.total && st.cursor <= c.total
    requires GoodRecord(c, r) && k <= WriteLen(c, |r.data|) && Start(c, st.cursor, |r.data|) == st.cursor
    ensures Phase(c, Recover(c, Torn(c, st, r, k)).1, lap) && Recover(c, Torn(c, st, r, k)).0 == |lap|
  {
    hide Image;
    hide LapLen;
    hide Encode;
    hide Torn;
    hide Sealed;
    hide Stopping;
    hide Recover;
    var g, b := LapLen(c, lap), RoundUp(LapLen(c, lap), c.sector);
    var f := Torn(c, st, r, k);
    TornBytes(c, st, r, k);
    assert f[..b] == f[..st.cursor][..b] == st.flash[..b];
    assert f[..g] == f[..b][..g] == st.flash[..g];
    GapStops(c, st.flash, f, lap);
  }

  /** The scan of a partition with a sealed gap, whatever lies beyond its sector. */
  lemma GapStops(c: Config, was: seq<Byte>, f: seq<Byte>, lap: seq<Record>)
    requires Geometry(c) && StartsWith(c, f, lap) && Sealed(c, was, LapLen(c, lap)) && |f| == |was|
    requires f[..RoundUp(LapLen(c, lap), c.sector)] == was[..RoundUp(LapLen(c, lap), c.sector)]
    ensures Phase(c, Recover(c, f).1, lap) && Recover(c, f).0 == |lap|
  {
    hide Image;
    hide LapLen;
    hide Sealed;
    hide Stopping;
    hide Recover;
    SealedStays(c, was, f, LapLen(c, lap));
    ScanStops(c, f, lap);
  }

  /** A restart between records, with any old data behind the cursor that does not read as a frame. */
  lemma RestartKeepsPhase(c: Config, st: State, lap: seq<Record>)
    requires Geometry(c) && Phase(c, st, lap) && |st.flash| == c.total && NoFrameBehind(c, st, lap)
    ensures Phase(c, Recover(c, st.flash).1, lap) && Recover(c, st.flash).0 == |lap|
  {
    hide Image;
    hide LapLen;
    hide Sealed;
    hide Recover;
    hide Inspect;
    hide RoundUp;
    PhaseShape(c, st, lap);
    if st.cursor == LapLen(c, lap) {
      ScanStops(c, st.flash, lap);
      RoundUpMultiple(st.cursor, c.sector);
      if st.cursor % c.sector != 0 { BlankSeals(c, st.flash, st.cursor); }
    } else {
      GapStops(c, st.flash, st.flash, lap);
    }
  }

  /** A restart counts exactly the lap if and only if no old frame stands right behind it. */
  lemma RestartExactIff(c: Config, st: State, lap: seq<Record>)
    requires Geometry(c) && Phase(c, st, lap) && |st.flash| == c.total
    ensures Recover(c, st.flash).0 == |lap| <==> NoFrameBehind(c, st, lap)
  {
    hide Image;
    hide LapLen;
    hide Recover;
    hide Inspect;
    hide Phase;
    if NoFrameBehind(c, st, lap) {
      RestartKeepsPhase(c, st, lap);
    } else {
      PhaseShape(c, st, lap);
      OldFrameCounts(c, st.flash, lap);
    }
  }

  lemma OldFrameCounts(c: Config, f: seq<Byte>, lap: seq<Record>)
    requires Geometry(c) && StartsWith(c, f, lap) && LapLen(c, lap) + HEADER <= c.total && Inspect(c, f, LapLen(c, lap)).Frame?
    ensures Recover(c, f).0 > |lap|
  {
    hide Image;
    hide LapLen;
    hide Inspect;
    hide Scan;
    hide Verdicts;
    LapSkipped(c, f, lap);
    VerdictAt(c, f, LapLen(c, lap));
    OneMore(Verdicts(c, f), LapLen(c, lap), |lap|);
  }

  /** Blank flash at the cursor, as every record without a fault leaves it, is no frame. */
  lemma BlankIsNoFrame(c: Config, st: State, lap: seq<Record>)
    requires c.sector > 0 && |st.flash| == c.total && BlankAhead(c, st)
    ensures NoFrameBehind(c, st, lap)
  {
    if st.cursor + HEADER <= c.total { assert st.flash[st.cursor] == ERASED; }
  }

  /** A power loss during the erase for a record inside a sector changes nothing the scan sees. */
  lemma CutEraseKeepsPhase(c: Config, st: State, lap: seq<Record>, r: Record, garbage: seq<Byte>)
    requires Geometry(c) && Phase(c, st, lap) && |st.flash| == c.total && st.cursor <= c.total
    requires GoodRecord(c, r) && Start(c, st.cursor, |r.data|) % c.sector != 0
    ensures var (frames, st') := Recover(c, ReadyToProgram(c, st, |r.data|, FlashLog.Failed(garbage)));
            Phase(c, st', lap) && frames == |lap|
  {
    hide Image;
    hide LapLen;
    hide Sealed;
    hide Recover;
    hide ReadyToProgram;
    hide RoundUp;
    PhaseShape(c, st, lap);
    var f, g := ReadyToProgram(c, st, |r.data|, FlashLog.Failed(garbage)), LapLen(c, lap);
    EraseLossKeeps(c, st, |r.data|, garbage);
    var b := RoundUp(g, c.sector);
    if st.cursor == g {
      assert f[..g] == f[..b][..g] == st.flash[..b][..g] == st.flash[..g];
      BlankSeals(c, f, g);
      GapStops(c, f, f, lap);
    } else {
      var e := RoundUp(st.cursor, c.sector);
      assert f[..b] == f[..e][..b] == st.flash[..e][..b] == st.flash[..b];
      assert f[..g] == f[..b][..g] == st.flash[..b][..g] == st.flash[..g];
      GapStops(c, st.flash, f, lap);
    }
  }

  /** The lap after an event. */
  function EventLap(c: Config, st: State, lap: seq<Record>, e: Event): seq<Record>
    requires Geometry(c) && |st.flash| == c.total && st.cursor <= c.total
  {
    match e
    case Wrote(op) => WriteLap(c, st, lap, op)
    case CutErase(_, _) => lap
    case Crashed(r, k) => if Tears(c, e) then CrashLap(c, st, lap, r, k) else lap
    case Restarted => lap
  }

  lemma EventKeepsPhase(c: Config, st: State, lap: seq<Record>, e: Event)
    requires Geometry(c) && Phase(c, st, lap) && |st.flash| == c.total && st.cursor <= c.total && Allowed(c, st, lap, e)
    ensures Phase(c, After(c, st, e), EventLap(c, st, lap, e))
  {
    hide Phase;
    hide Recover;
    hide Torn;
    hide Write;
    hide SafeToTear;
    hide NoFrameBehind;
    hide WriteLap;
    hide CrashLap;
    hide ReadyToProgram;
    match e {
      case Wrote(op) => WriteKeepsPhase(c, st, lap, op);
      case CutErase(r, garbage) => CutEraseKeepsPhase(c, st, lap, r, garbage);
      case Crashed(r, k) => CrashKeepsPhase(c, st, lap, r, k);
      case Restarted => RestartKeepsPhase(c, st, lap);
    }
  }

  function RunEvents(c: Config, st: State, es: seq<Event>): (r: State)
    requires Geometry(c) && |st.flash| == c.total && st.cursor <= c.total
    ensures |r.flash| == c.total && r.cursor <= c.total
    decreases |es|
  {
    if es == [] then st else After(c, RunEvents(c, st, es[..|es| - 1]), es[|es| - 1])
  }

  /** The records the log holds after the events: each completed write is appended, a wrap starts anew, and
      what is written behind a gap is not part of it. */
  function RoundLap(c: Config, st: State, lap: seq<Record>, es: seq<Event>): seq<Record>
    requires Geometry(c) && |st.flash| == c.total && st.cursor <= c.total
    decreases |es|
  {
    if es == [] then lap
    else
      var front := es[..|es| - 1];
      EventLap(c, RunEvents(c, st, front), RoundLap(c, st, lap, front), es[|es| - 1])
  }

  ghost predicate AllAllowed(c: Config, st: State, lap: seq<Record>, es: seq<Event>)
    requires Geometry(c) && |st.flash| == c.total && st.cursor <= c.total
  {
    forall i :: 0 <= i < |es| ==> Allowed(c, RunEvents(c, st, es[..i]), RoundLap(c, st, lap, es[..i]), es[i])
  }

  lemma AllowedFront(c: Config, st: State, lap: seq<Record>, es: seq<Event>)
    requires Geometry(c) && |st.flash| == c.total && st.cursor <= c.total && AllAllowed(c, st, lap, es) && es != []
    ensures var front := es[..|es| - 1];
            AllAllowed(c, st, lap, front) && Allowed(c, RunEvents(c, st, front), RoundLap(c, st, lap, front), es[|es| - 1])
  {
    hide Allowed;
    hide RunEvents;
    hide RoundLap;
    var front := es[..|es| - 1];
    assert forall i :: 0 <= i < |front| ==> front[..i] == es[..i];
  }

  lemma {:induction false} RoundsKeepPhase(c: Config, st: State, lap: seq<Record>, es: seq<Event>)
    requires Geometry(c) && |st.flash| == c.total && st.cursor <= c.total && Phase(c, st, lap) && AllAllowed(c, st, lap, es)
    ensures Phase(c, RunEvents(c, st, es), RoundLap(c, st, lap, es))
    decreases |es|
  {
    hide Phase;
    hide After;
    hide Allowed;
    hide AllAllowed;
    hide EventLap;
    if es != [] {
      AllowedFront(c, st, lap, es);
      var front := es[..|es| - 1];
      RoundsKeepPhase(c, st, lap, front);
      EventKeepsPhase(c, RunEvents(c, st, front), RoundLap(c, st, lap, front), es[|es| - 1]);
    }
  }

  /** The event sends its record to the start of the partition. */
  predicate EventWraps(c: Config, st: State, e: Event) {
    match e
    case Wrote(op) => Wraps(c, st, |op.record.data|)
    case CutErase(_, _) => false
    case Crashed(r, _) => Wraps(c, st, |r.data|)
    case Restarted => false
  }

  lemma {:induction false} LapGrows(c: Config, st: State, lap: seq<Record>, es: seq<Event>)
    requires Geometry(c) && |st.flash| == c.total && st.cursor <= c.total
    requires forall i :: 0 <= i < |es| ==> !EventWraps(c, RunEvents(c, st, es[..i]), es[i])
    ensures lap <= RoundLap(c, st, lap, es)
    decreases |es|
  {
    hide RunEvents;
    hide EventLap;
    hide EventWraps;
    if es != [] {
      var front := es[..|es| - 1];
      assert forall i :: 0 <= i < |front| ==> front[..i] == es[..i];
      LapGrows(c, st, lap, front);
      EventKeepsRecords(c, RunEvents(c, st, front), RoundLap(c, st, lap, front), es[|es| - 1]);
    }
  }

  lemma {:induction false} StartsWithFewer(c: Config, f: seq<Byte>, lap: seq<Record>, less: seq<Record>)
    requires StartsWith(c, f, lap) && less <= lap
    ensures StartsWith(c, f, less)
    decreases |lap|
  {
    hide Encode;
    if less != lap {
      var front := lap[..|lap| - 1];
      assert f[..LapLen(c, front)] == f[..LapLen(c, lap)][..LapLen(c, front)];
      StartsWithFewer(c, f, front, less);
    } else {
      assert less == lap;
    }
  }

  /** As long as nothing wraps, no record is lost, whatever happens: the records a scan finds now are still
      there, byte for byte, after any events, and a later scan counts no fewer. */
  lemma RecordsSurvive(c: Config, st: State, lap: seq<Record>, es: seq<Event>)
    requires Geometry(c) && |st.flash| == c.total && st.cursor <= c.total && Phase(c, st, lap) && AllAllowed(c, st, lap, es)
    requires NoFrameBehind(c, st, lap) && NoFrameBehind(c, RunEvents(c, st, es), RoundLap(c, st, lap, es))
    requires forall i :: 0 <= i < |es| ==> !EventWraps(c, RunEvents(c, st, es[..i]), es[i])
    ensures var end := RunEvents(c, st, es);
            && Recover(c, st.flash).0 <= Recover(c, end.flash).0
            && st.flash[..LapLen(c, lap)] == end.flash[..LapLen(c, lap)]
  {
    hide Phase;
    hide Recover;
    hide RunEvents;
    hide RoundLap;
    hide EventWraps;
    hide AllAllowed;
    hide NoFrameBehind;
    hide Image;
    hide LapLen;
    var end, after := RunEvents(c, st, es), RoundLap(c, st, lap, es);
    RoundsKeepPhase(c, st, lap, es);
    LapGrows(c, st, lap, es);
    RestartKeepsPhase(c, st, lap);
    RestartKeepsPhase(c, end, after);
    PhaseShape(c, st, lap);
    PhaseShape(c, end, after);
    StartsWithFewer(c, end.flash, after, lap);
  }

  lemma EventKeepsRecords(c: Config, st: State, lap: seq<Record>, e: Event)
    requires Geometry(c) && |st.flash| == c.total && st.cursor <= c.total && !EventWraps(c, st, e)
    ensures lap <= EventLap(c, st, lap, e)
  {
    hide Write;
    hide Inspect;
    hide Torn;
  }

  /** From registration over any image, after any events: a scan counts exactly the records of the lap if and
      only if it meets no old frame right behind them, and so always behind a gap. */
  lemma RoundsFindTheLap(c: Config, image: seq<Byte>, es: seq<Event>)
    requires Geometry(c) && |image| == c.total && AllAllowed(c, State(image, 0), [], es)
    ensures var st, lap := RunEvents(c, State(image, 0), es), RoundLap(c, State(image, 0), [], es);
            Phase(c, st, lap) && (Recover(c, st.flash).0 == |lap| <==> NoFrameBehind(c, st, lap))
  {
    hide Phase;
    hide Recover;
    hide NoFrameBehind;
    hide AllAllowed;
    hide RunEvents;
    hide RoundLap;
    RegisteredPhase(c, image);
    RoundsKeepPhase(c, State(image, 0), [], es);
    RestartExactIff(c, RunEvents(c, State(image, 0), es), RoundLap(c, State(image, 0), [], es));
  }

  /** The record an event erases for or programs, wholly or in part. */
  function Programs(e: Event): Record
    requires !e.Restarted?
  {
    if e.Wrote? then e.op.record else e.record
  }

  /** From registration over any image, over any number of writes with any driver answers, power losses
      while erasing or programming, scans and restarts: nothing is ever programmed over a byte that is
      not erased, every erase stays in the partition, and the cursor is clear at every moment. */
  lemma RoundsAreSafe(c: Config, image: seq<Byte>, es: seq<Event>, i: nat)
    requires Geometry(c) && |image| == c.total && AllAllowed(c, State(image, 0), [], es) && i < |es|
    ensures var st := RunEvents(c, State(image, 0), es[..i]);
            && CursorClear(c, st)
            && (!es[i].Restarted? ==> StepSafe(c, st, Programs(es[i]), if es[i].Wrote? then es[i].op.faults else NO_FAULTS))
  {
    hide Phase;
    hide StepSafe;
    hide CursorClear;
    var front := es[..i];
    assert forall j :: 0 <= j < |front| ==> front[..j] == es[..j];
    RegisteredPhase(c, image);
    RoundsKeepPhase(c, State(image, 0), [], front);
    var st := RunEvents(c, State(image, 0), front);
    PhaseShape(c, st, RoundLap(c, State(image, 0), [], front));
    if !es[i].Restarted? {
      WriteKeepsCursorClear(c, st, Programs(es[i]), if es[i].Wrote? then es[i].op.faults else NO_FAULTS);
    }
  }

  // ---- What a gap costs ----

  /** Records written beyond a gap are not found again: after any run of writes that do not wrap a scan
      counts the lap before the gap and nothing else. */
  lemma {:induction false} GapHidesLaterRecords(c: Config, st: State, lap: seq<Record>, ops: seq<Op>)
    requires Geometry(c) && Phase(c, st, lap) && st.cursor != LapLen(c, lap) && TicksFit(ops)
    requires |st.flash| == c.total && st.cursor <= c.total
    requires forall i :: 0 <= i < |ops| ==> !Wraps(c, Run(c, st, ops[..i]), |ops[i].record.data|)
    ensures var st' := Run(c, st, ops);
            Phase(c, st', lap) && st'.cursor != LapLen(c, lap) && Recover(c, st'.flash).0 == |lap|
    decreases |ops|
  {
    hide Phase;
    hide Wraps;
    hide Write;
    hide LapLen;
    hide Recover;
    if ops == [] {
      GapIsSeen(c, st, lap);
    } else {
      var front, last := ops[..|ops| - 1], ops[|ops| - 1];
      assert forall i :: 0 <= i < |front| ==> front[..i] == ops[..i];
      assert last in ops;
      GapHidesLaterRecords(c, st, lap, front);
      WriteKeepsGap(c, Run(c, st, front), lap, last);
      GapIsSeen(c, Run(c, st, ops), lap);
    }
  }

  lemma GapIsSeen(c: Config, st: State, lap: seq<Record>)
    requires Geometry(c) && Phase(c, st, lap) && st.cursor != LapLen(c, lap)
    ensures |st.flash| == c.total && Recover(c, st.flash).0 == |lap|
  {
    hide Sealed;
    GapStops(c, st.flash, st.flash, lap);
  }

  /** A gap is reached by one record that ends inside a sector and a power loss in the first bytes of the
      next: the cursor is moved on to the boundary. */
  lemma GapIsReached(c: Config, image: seq<Byte>, first: Record, r: Record, k: nat)
    requires Geometry(c) && |image| == c.total && GoodRecord(c, first) && GoodRecord(c, r) && 0 < k < 4
    requires WriteLen(c, |first.data|) % c.sector != 0 && WriteLen(c, |first.data|) + WriteLen(c, |r.data|) <= c.total
    ensures var es := [Wrote(Op(first, NO_FAULTS)), Crashed(r, k)];
            && RunEvents(c, State(image, 0), es).cursor == RoundUp(WriteLen(c, |first.data|), c.sector)
            && RoundLap(c, State(image, 0), [], es) == [first]
            && RoundUp(WriteLen(c, |first.data|), c.sector) != LapLen(c, [first])
            && (WriteLen(c, |first.data|) + 4 <= RoundUp(WriteLen(c, |first.data|), c.sector) ==>
                  Phase(c, RunEvents(c, State(image, 0), es), [first]))
  {
    hide Write;
    hide Torn;
    hide Recover;
    hide WriteLen;
    hide RoundUp;
    hide CrashLap;
    hide Phase;
    var es := [Wrote(Op(first, NO_FAULTS)), Crashed(r, k)];
    var st1 := FirstRecord(c, image, first);
    assert es[..1] == [es[0]] && es[..1][..0] == [];
    assert RunEvents(c, State(image, 0), es[..1][..0]) == State(image, 0);
    assert RunEvents(c, State(image, 0), es[..1]) == st1;
    assert RoundLap(c, State(image, 0), [], es[..1][..0]) == [];
    assert RoundLap(c, State(image, 0), [], es[..1]) == [first];
    CrashLapIs(c, st1, [first], r, k);
    CutInHeader(c, st1, [first], r, k);
    RoundUpMultiple(st1.cursor, c.sector);
  }

  /** The first record after registration. */
  lemma FirstRecord(c: Config, image: seq<Byte>, first: Record) returns (st: State)
    requires Geometry(c) && |image| == c.total && GoodRecord(c, first)
    ensures st == Write(c, State(image, 0), first, NO_FAULTS).1 && WriteLap(c, State(image, 0), [], Op(first, NO_FAULTS)) == [first]
    ensures |st.flash| == c.total && st.cursor == LapLen(c, [first]) == WriteLen(c, |first.data|) <= c.total
    ensures Phase(c, st, [first]) && CursorClear(c, st)
  {
    hide Phase;
    hide Write;
    hide WriteLen;
    hide RoundUp;
    var st0 := State(image, 0);
    RegisteredPhase(c, image);
    PhaseShape(c, st0, []);
    EmptyLap(c);
    CleanWriteBlanksAhead(c, st0, first);
    FrameInPlace(c, st0, first, NO_FAULTS);
    st := Write(c, st0, first, NO_FAULTS).1;
    assert [] + [first] == [first];
    CleanWrite(c, st0, [], Op(first, NO_FAULTS));
    PhaseShape(c, st, [first]);
    OneRecord(c, first);
  }

  lemma OneRecord(c: Config, r: Record)
    ensures LapLen(c, [r]) == WriteLen(c, |r.data|) && Image(c, [r]) == Encode(c, r)
  {
    hide Encode;
    assert [r][..0] == [];
  }

  /** A loss in the first bytes of a header leaves a dirty stop in front of it. */
  lemma CutInHeader(c: Config, st: State, lap: seq<Record>, r: Record, k: nat)
    requires Geometry(c) && Phase(c, st, lap) && st.cursor == LapLen(c, lap) && |st.flash| == c.total && st.cursor <= c.total
    requires GoodRecord(c, r) && 0 < k < 4 && k <= WriteLen(c, |r.data|) && Start(c, st.cursor, |r.data|) == st.cursor
    ensures Recover(c, Torn(c, st, r, k)).1.cursor == RoundUp(st.cursor, c.sector)
    ensures st.cursor + 4 <= RoundUp(st.cursor, c.sector) ==> Phase(c, Recover(c, Torn(c, st, r, k)).1, lap)
  {
    hide Sealed;
    hide Torn;
    hide Encode;
    hide Verdicts;
    hide Scan;
    hide Image;
    hide LapLen;
    var f := Torn(c, st, r, k);
    PhaseShape(c, st, lap);
    TornBehindLap(c, st, lap, r, k);
    LapSkipped(c, f, lap);
    PartialVerdict(c, f, st.cursor, r, k);
    hide Inspect;
    PartialRefused(c, f, st.cursor, r, k, |lap|);
    AlignedIsClear(c, f, st.cursor);
    if st.cursor + 4 <= RoundUp(st.cursor, c.sector) { HeaderCutSeals(c, f, st.cursor, r, k); }
  }

  /** With magic and length in one sector, what stands of them refuses the frame for good. */
  lemma HeaderCutSeals(c: Config, f: seq<Byte>, g: nat, r: Record, k: nat)
    requires Geometry(c) && GoodRecord(c, r) && PartialFrame(c, f, g, r, k) && 0 < k < 4
    requires g + 4 <= RoundUp(g, c.sector)
    ensures Sealed(c, f, g)
  {
    hide Encode;
    hide FrameCrc;
    var b := RoundUp(g, c.sector);
    RoundUpLeast(g, c.sector, c.total);
    EncodeLayout(c, r);
    PartialBytes(c, f, g, r, k, 0);
    PartialBytes(c, f, g, r, k, 1);
    PartialBytes(c, f, g, r, k, 2);
    PartialBytes(c, f, g, r, k, 3);
    hide PartialFrame;
    hide RoundUp;
    forall f': seq<Byte> | |f'| == c.total && f'[..b] == f[..b] ensures Stopping(c, f', g) {
      forall i | g <= i < g + 4 ensures f'[i] == f[i] { assert f'[..b][i] == f[..b][i]; }
      CutStops(c, f', g);
    }
  }

  /** A first byte of the magic without the second, or a length of which only the low byte was written. */
  lemma CutStops(c: Config, f: seq<Byte>, g: nat)
    requires Geometry(c) && g + HEADER <= |f| == c.total && f[g] == 4 && f[g + 3] == ERASED && (f[g + 1] == 0 || f[g + 1] == ERASED)
    ensures Stopping(c, f, g)
  {
    hide FrameCrc;
  }
}
