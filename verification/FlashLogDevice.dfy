/** The flash log as the library runs it: a partition of cells changed in place, the
    write cursor, and the scan and write loops, proved against the functions of FlashLog. */
module FlashLogDevice {
  import opened Bits
  import opened LittleEndian
  import opened FlashLog
  import CrcEngine

  /** Default frame checksum: CRC-16/CCITT-FALSE. */
  function FrameChecksum(data: seq<Byte>): nat {
    CrcEngine.Value(CrcEngine.Params(0xFFFF, false, false, 0, 0x1021, 16), data)
  }

  class Log {
    const ring: nat
    const cache: CrcEngine.TableCache
    var cells: array<Byte>
    var total: nat
    var sector: nat
    var gran: nat
    var cursor: nat
    var initialized: bool

    ghost function Cfg(): Config
      reads this
    {
      Config(total, sector, gran, ring, FrameChecksum)
    }

    ghost function Contents(): State
      reads this, cells
    {
      State(cells[..], cursor)
    }

    ghost predicate Valid()
      reads this, cells, cache, cache.table
    {
      && ring <= 0x8000 && cache.Valid() && cells as object != cache.table
      && (initialized ==> Geometry(Cfg()) && cells.Length == total && cursor <= total)
    }

    constructor (ringSize: nat)
      requires ringSize <= 0x8000
      ensures Valid() && !initialized && ring == ringSize && fresh(cells) && fresh(cache) && fresh(cache.table)
    {
      ring := ringSize;
      cache := new CrcEngine.TableCache();
      cells := new Byte[0];
      total, sector, gran, cursor, initialized := 0, 0, 0, 0, false;
    }

    /** Registration takes any partition contents and accepts exactly the legal geometries. */
    method Register(partition: array<Byte>, opsComplete: bool, newSector: nat, newGran: nat) returns (ret: Ret)
      requires Valid() && partition as object != cache.table
      modifies this
      ensures Valid()
      ensures ret == Ok <==>
                opsComplete && Geometry(Config(partition.Length, newSector, newGran, ring, FrameChecksum))
      ensures ret == Ok ==> initialized && cells == partition && cursor == 0 &&
                            Cfg() == Config(partition.Length, newSector, newGran, ring, FrameChecksum)
      ensures ret != Ok ==> ret == Param && !initialized && cells == old(cells) && cursor == old(cursor)
    {
      initialized := false;
      if !opsComplete {
        return Param;
      }
      if partition.Length == 0 || newSector == 0 {
        return Param;
      }
      if partition.Length % newSector != 0 {
        return Param;
      }
      if newGran != 0 { PowerOfTwoTest(newGran); }
      if newGran != 0 && And(newGran, newGran - 1) != 0 {
        return Param;
      }
      cells, total, sector, gran := partition, partition.Length, newSector, newGran;
      cursor, initialized := 0, true;
      ret := Ok;
    }

    method FrameCheck(head: seq<Byte>, payload: seq<Byte>) returns (k: nat)
      requires cache.Valid()
      modifies cache, cache.table
      ensures cache.Valid()
      ensures k == FrameCrc(Cfg(), head, payload)
    {
      hide CrcEngine.Value;
      hide CrcEngine.Stream.Valid;
      hide CrcEngine.TableCache.Valid;
      var cs := new CrcEngine.Stream(0xFFFF, false, false, 0, 0x1021, 16);
      cs.FeedSegment(cache, head);
      cs.FeedSegment(cache, payload);
      var value := cs.Finish();
      assert [] + head + payload == head + payload;
      k := value % 0x1_0000;
    }

    /** Erasing sets every byte of the range; a failing erase leaves garbage in it. */
    method EraseRange(from: nat, to: nat, o: EraseOutcome)
      requires to <= cells.Length
      modifies cells
      ensures cells[..] == Erased(old(cells[..]), from, to, o)
    {
      var i := from;
      while i < to
        invariant from <= i
        invariant forall j :: 0 <= j < cells.Length ==>
                    cells[j] == if j < i then Erased(old(cells[..]), from, to, o)[j] else old(cells[j])
      {
        if o.Done? {
          cells[i] := ERASED;
        } else if i < |o.garbage| {
          cells[i] := o.garbage[i];
        }
        i := i + 1;
      }
    }

    /** Programming clears bits cell by cell. */
    method ProgramRange(off: nat, data: seq<Byte>)
      requires off + |data| <= cells.Length
      modifies cells
      ensures cells[..] == Programmed(old(cells[..]), off, data, |data|)
    {
      for i := 0 to |data|
        invariant cells[..] == Programmed(old(cells[..]), off, data, i)
      {
        cells[off + i] := ProgramByte(cells[off + i], data[i]);
      }
    }

    /** (n + (a - 1)) & ~(a - 1) for the write granularity a. */
    method AlignUp(n: nat) returns (r: nat)
      requires Valid() && initialized
      ensures r == RoundUp(n, Align(Cfg()))
    {
      hide RoundUp;
      hide And;
      hide FrameChecksum;
      hide CrcEngine.TableCache.Valid;
      var a := if gran > 0 then gran else DEFAULT_ALIGN;
      assert IsPow2(a) by {
        if gran == 0 { assert Pow2(2) == 4; }
      }
      MaskRoundsUp(n, a);
      r := And(n + (a - 1), Not(a - 1, n + a));
    }

    /** Header, checksum, payload and padding of one frame. */
    method BuildFrame(data: seq<Byte>, tick: nat, writeLen: nat) returns (frame: seq<Byte>)
      requires cache.Valid() && writeLen == WriteLen(Cfg(), |data|)
      modifies cache, cache.table
      ensures cache.Valid()
      ensures frame == Encode(Cfg(), Record(data, tick))
    {
      hide FrameChecksum;
      hide RoundUp;
      hide CrcEngine.TableCache.Valid;
      var head := Le16(MAGIC) + Le16(|data|) + Le32(tick);
      var crc := FrameCheck(head, data);
      frame := head + Le16(crc) + data + Fill(writeLen - HEADER - |data|);
    }

    /** Erase the sectors the frame enters, program it at the cursor, erase ahead. */
    method StoreFrame(frame: seq<Byte>, x: Faults) returns (ret: Ret)
      requires Valid() && initialized && cursor + |frame| <= total
      requires RoundUp(cursor + |frame|, sector) <= total
      requires var end := cursor + |frame|; end < total && end % sector == 0 ==> end + sector <= total
      modifies `cursor, cells
      ensures Valid()
      ensures (ret, Contents()) == Store(Cfg(), old(cells[..]), old(cursor), frame, x)
    {
      hide FrameChecksum;
      hide Erased;
      hide Programmed;
      hide RoundUp;
      hide CrcEngine.TableCache.Valid;
      var frameEnd := cursor + |frame|;
      var eraseStart := if cursor % sector == 0 then cursor else (cursor / sector + 1) * sector;
      var eraseEnd := RoundUp(frameEnd, sector);
      if !x.opens {
        return OpenError;
      }
      if eraseEnd > eraseStart {
        EraseRange(eraseStart, eraseEnd, x.erase);
        if x.erase.Failed? {
          return EraseError;
        }
      }
      if !x.writes {
        return WriteError;
      }
      ProgramRange(cursor, frame);
      cursor := frameEnd;
      if cursor < total && cursor % sector == 0 {
        EraseRange(cursor, cursor + sector, x.ahead);
      }
      ret := Ok;
    }

    method WriteRecord(data: seq<Byte>, tick: nat, x: Faults) returns (ret: Ret)
      requires Valid()
      modifies `cursor, cells, cache, cache.table
      ensures Valid()
      ensures !initialized ==> ret == NotInit && Contents() == old(Contents())
      ensures initialized ==> (ret, Contents()) == Write(Cfg(), old(Contents()), Record(data, tick), x)
    {
      hide FrameChecksum;
      hide Erased;
      hide Programmed;
      hide Encode;
      hide RoundUp;
      hide CrcEngine.TableCache.Valid;
      if !initialized {
        return NotInit;
      }
      if |data| == 0 {
        return Param;
      }
      var writeLen := AlignUp(HEADER + |data|);
      if writeLen > ring || writeLen > total {
        return TooLong;
      }
      if cursor + writeLen > total {
        cursor := 0;
      }
      var frame := BuildFrame(data, tick, writeLen);
      PlanBounds(Cfg(), old(cursor), |data|);
      ret := StoreFrame(frame, x);
    }

    method CleanAllCells(opens: bool, o: EraseOutcome) returns (ret: Ret)
      requires Valid()
      modifies `cursor, cells
      ensures Valid()
      ensures !initialized ==> ret == NotInit && Contents() == old(Contents())
      ensures initialized ==> (ret, Contents()) == CleanAll(Cfg(), old(Contents()), opens, o)
    {
      if !initialized {
        return NotInit;
      }
      if !opens {
        return OpenError;
      }
      EraseRange(0, total, o);
      if o.Failed? {
        return EraseError;
      }
      cursor := 0;
      ret := Ok;
    }

    /** The checks the scan makes at one offset; the payload is read only if the header calls for it. */
    method InspectAt(off: nat, bad: set<nat>) returns (v: Verdict, broken: bool)
      requires Valid() && initialized && off + HEADER <= total
      modifies cache, cache.table
      ensures Valid() && cells[..] == old(cells[..])
      ensures broken <==> NeedsPayload(Cfg(), cells[..], off) && off + HEADER in bad
      ensures !broken ==> v == Inspect(Cfg(), cells[..], off)
    {
      hide FrameChecksum;
      hide RoundUp;
      hide CrcEngine.TableCache.Valid;
      var f := cells[..];
      broken := false;
      if U16(cells[off], cells[off + 1]) != MAGIC {
        var i := 0;
        while i < HEADER
          invariant i <= HEADER
          invariant forall j :: off <= j < off + i ==> f[j] == ERASED
        {
          if cells[off + i] != ERASED {
            return Dirty, false;
          }
          i := i + 1;
        }
        return Unwritten, false;
      }
      var len := U16(cells[off + 2], cells[off + 3]);
      if len == 0 {
        return Dirty, false;
      }
      if HEADER + len > ring || off + HEADER + len > total {
        return Dirty, false;
      }
      if off + HEADER in bad {
        return Dirty, true;
      }
      var crc := FrameCheck(f[off..off + 8], f[off + HEADER..off + HEADER + len]);
      if crc != U16(f[off + 8], f[off + 9]) {
        return Dirty, false;
      }
      var advance := AlignUp(HEADER + len);
      v := Frame(advance);
    }

    /** The power-on scan with a driver that fails to read at the addresses in `bad`: the frames counted
        and the result code are those of that scan; a failing read leaves the cursor alone, and without
        one the result is that of Recover. */
    method RecoverCursor(opens: bool, bad: set<nat>) returns (ret: Ret, frames: nat)
      requires Valid()
      modifies `cursor, cache, cache.table
      ensures Valid() && cells[..] == old(cells[..])
      ensures !initialized ==> ret == NotInit
      ensures initialized && !opens ==> ret == OpenError
      ensures initialized && opens ==>
                match ScanReading(Cfg(), cells[..], 0, 0, bad)
                case Broken(n) => ret == ReadError && frames == n
                case Ended(_) => ret == Ok && Recover(Cfg(), cells[..]) == (frames, Contents())
      ensures ret != Ok ==> cursor == old(cursor)
    {
      hide FrameChecksum;
      hide Inspect;
      hide NeedsPayload;
      hide Verdicts;
      hide Scan;
      hide RoundUp;
      hide CrcEngine.TableCache.Valid;
      frames := 0;
      if !initialized {
        return NotInit, 0;
      }
      if !opens {
        return OpenError, 0;
      }
      var offset, dirty, err := 0, false, Ok;
      ghost var f := cells[..];
      ghost var goal := ScanReading(Cfg(), f, 0, 0, bad);
      while offset + HEADER <= total
        invariant Valid() && initialized && cells[..] == f && cursor == old(cursor)
        invariant !dirty && err == Ok && ScanReading(Cfg(), f, offset, frames, bad) == goal
        decreases total - offset
      {
        if offset in bad {
          err := ReadError;
          break;
        }
        var verdict, broken := InspectAt(offset, bad);
        if broken {
          err := ReadError;
          break;
        }
        if !verdict.Frame? {
          dirty := verdict.Dirty?;
          break;
        }
        offset := offset + verdict.advance;
        frames := frames + 1;
      }
      ScanUnbroken(Cfg(), f, 0, 0, bad);
      if err == Ok {
        assert goal == Ended(ScanEnd(frames, offset, dirty));
        if dirty {
          offset := RoundUp(offset, sector);
        }
        cursor := if offset > total then 0 else offset;
      }
      ret := err;
    }
  }
}
