/** The configuration store as the library runs it: the entry table, byte buffers filled and read
    at a moving position, and slots and flag changed step by step, proved against ConfigCodec
    and ConfigStore. */
module ConfigStoreDevice {
  import opened Bits
  import opened LittleEndian
  import opened ConfigCodec
  import opened ConfigStore
  import Crc
  import CrcEngine

  const SLACK: nat := 57   // how far a value may run beyond the space reserved for it

  /** memcpy into the buffer. */
  method Store(buf: array<Byte>, pos: nat, part: seq<Byte>)
    requires pos + |part| <= buf.Length
    modifies buf
    ensures buf[..pos + |part|] == old(buf[..pos]) + part
    ensures forall j :: pos + |part| <= j < buf.Length ==> buf[j] == old(buf[j])
  {
    for i := 0 to |part|
      invariant buf[..pos + i] == old(buf[..pos]) + part[..i]
      invariant forall j :: pos + i <= j < buf.Length ==> buf[j] == old(buf[j])
    {
      buf[pos + i] := part[i];
      assert part[..i + 1] == part[..i] + [part[i]];
      assert buf[..pos + i + 1] == buf[..pos + i] + [part[i]];
    }
    assert part[..|part|] == part;
  }

  class Device {
    const max: nat                 // MAX_ENTRIES
    const factory: seq<Entry>      // what the bound JSON source parses to
    const table: array<nat>        // the table of crc32_le
    var entries: seq<Entry>
    var health: int
    var flag: Byte
    var slotA: Slot
    var slotB: Slot

    ghost predicate Valid()
      reads this, table
    {
      && max < 0x1_0000 && TableOk(factory) && |factory| <= max
      && TableOk(entries) && |entries| <= max
      && table.Length == 256 && forall i :: 0 <= i < 256 ==> table[i] == Crc.TableEntry(CRC_MODEL, i)
    }

    function Media(): Storage
      reads this
    {
      Storage(flag, slotA, slotB)
    }

    method Crc32Le(data: seq<Byte>) returns (crc: nat)
      requires Valid()
      ensures crc == Crc32(data)
    {
      hide TableOk;
      crc := 0;
      for i := 0 to |data|
        invariant crc == Crc.Feed(CRC_MODEL, 0, data[..i])
      {
        assert data[..i + 1][..i] == data[..i];
        CrcIndex(crc, data[i]);
        crc := Xor(table[And(Xor(crc, data[i]), 0xFF)], Shr(crc, 8));
      }
      assert data[..|data|] == data;
    }

    /** blob_serialize, into a buffer of `size` bytes with other memory behind it: succeeds exactly when
        every entry passes its test, and writes behind the buffer only if the value reserve is overrun. */
    method Serialize(buf: array<Byte>, size: nat) returns (ok: bool, outLen: nat)
      requires Valid() && size + SLACK <= buf.Length && buf as object != table
      modifies buf
      ensures ok <==> Accepts(entries, size)
      ensures ok ==> outLen == |Blob(entries)| <= buf.Length && buf[..outLen] == Blob(entries)
      ensures !Overruns(entries, size) ==> buf[size..] == old(buf[size..]) && (ok ==> outLen <= size)
    {
      hide EntryOk;
      hide EntryBytes;
      hide Crc.TableEntry;
      ok, outLen := false, 0;
      if size < 2 { return; }
      ghost var was := buf[..];
      Store(buf, 0, Le16(|entries|));
      var pos: nat := 2;
      assert buf[..0] + Le16(|entries|) == Le16(|entries|);
      for i := 0 to |entries|
        invariant pos <= size + SLACK && buf[..pos] == Prefix(entries, i)
        invariant forall j :: pos <= j < buf.Length ==> buf[j] == was[j]
        invariant !Overruns(entries, size) ==> pos <= size
        invariant forall j :: 0 <= j < i ==> RoomFor(entries, j, size)
      {
        if pos + 1 + |entries[i].key| + 1 + RESERVE > size {
          assert !RoomFor(entries, i, size);
          TailKept(buf[..], was, pos, size);
          return;
        }
        EntryLength(entries[i]);
        EntryReserve(entries[i]);
        assert |Prefix(entries, i + 1)| > size ==> OverrunsAt(entries, i, size);
        pos := PutEntry(buf, pos, entries[i]);
      }
      TailKept(buf[..], was, pos, size);
      ok, outLen := true, pos;
    }

    /** Key length, key, type byte and value, one after the other. */
    method PutEntry(buf: array<Byte>, pos: nat, e: Entry) returns (end: nat)
      requires EntryOk(e) && pos + |EntryBytes(e)| <= buf.Length && buf as object != table
      modifies buf
      ensures end == pos + |EntryBytes(e)|
      ensures buf[..end] == old(buf[..pos]) + EntryBytes(e)
      ensures forall j :: end <= j < buf.Length ==> buf[j] == old(buf[j])
    {
      hide ValueBytes;
      ghost var was := buf[..pos];
      var n := |e.key|;
      Store(buf, pos, [n]);
      Store(buf, pos + 1, e.key);
      Store(buf, pos + 1 + n, [Tag(e.value)]);
      end := pos + 2 + n;
      assert buf[..end] == was + [n as Byte] + e.key + [Tag(e.value)];
      var v := ValueBytes(e.value);
      Store(buf, end, v);
      assert was + [n as Byte] + e.key + [Tag(e.value)] + v == was + EntryBytes(e);
      end := end + |v|;
    }

    /** blob_deserialize: entries already appended stay when a later one is malformed. */
    method Deserialize(buf: seq<Byte>) returns (ok: bool)
      requires Valid()
      modifies `entries
      ensures Valid()
      ensures (ok, entries) == Parse(buf, old(entries), max)
    {
      hide ParseEntry;
      hide EntryOk;
      hide Crc.TableEntry;
      if |buf| < 2 { return false; }
      var pos: nat := 2;
      var count := U16(buf[0], buf[1]);
      for i := 0 to count
        invariant TableOk(entries) && |entries| <= max
        invariant ParseEntries(buf, 2, count, old(entries), max) == ParseEntries(buf, pos, count - i, entries, max)
      {
        ParseEntryOk(buf, pos, entries, max);
        var more;
        more, pos := TakeEntry(buf, pos);
        if !more { return false; }
      }
      return true;
    }

    /** One entry: key, type, and the value into the entry just appended. With a full table the value
        bytes are left where they are. */
    method TakeEntry(buf: seq<Byte>, start: nat) returns (ok: bool, pos: nat)
      modifies `entries
      ensures Parsed(ok, pos, entries) == ParseEntry(buf, start, old(entries), max)
    {
      hide CText;
      pos := start;
      if pos >= |buf| { return false, pos; }
      var n := buf[pos];
      pos := pos + 1;
      if pos + n > |buf| || n >= 32 { return false, pos; }
      var key := CText(buf[pos..pos + n]);
      pos := pos + n;
      if pos >= |buf| { return false, pos; }
      var tag := buf[pos];
      pos := pos + 1;
      if |entries| >= max { return true, pos; }
      entries := entries + [Entry(key, Zero(tag))];
      ok, pos := TakeValue(buf, pos, key, tag);
    }

    method TakeValue(buf: seq<Byte>, start: nat, key: seq<Byte>, tag: Byte) returns (ok: bool, pos: nat)
      requires entries != [] && entries[|entries| - 1] == Entry(key, Zero(tag))
      modifies `entries
      ensures Parsed(ok, pos, entries) == ParseValue(buf, start, old(entries)[..|old(entries)| - 1], key, tag)
    {
      hide CText;
      hide U32;
      pos := start;
      var last := |entries| - 1;
      ghost var es := entries[..last];
      assert entries == es + [Entry(key, Zero(tag))];
      if tag == 0 || tag == 1 {
        if pos + 4 > |buf| { return false, pos; }
        var word := U32(buf[pos..pos + 4]);
        entries := entries[last := Entry(key, if tag == 0 then Int(FromWord(word)) else Float(word))];
        return true, pos + 4;
      }
      if tag == 2 {
        if pos >= |buf| { return false, pos; }
        entries := entries[last := Entry(key, Bool(buf[pos] != 0))];
        return true, pos + 1;
      }
      if tag == 3 {
        if pos + 2 > |buf| { return false, pos; }
        var n := U16(buf[pos], buf[pos + 1]);
        pos := pos + 2;
        if pos + n > |buf| { return false, pos; }
        if n > STR_MAX { n := STR_MAX; }
        entries := entries[last := Entry(key, Str(CText(buf[pos..pos + n])))];
        return true, pos + n;
      }
      return true, pos;
    }

    ghost function Surroundings(flagAt: nat -> Byte, flagWritable: bool): Env {
      Env(factory, max, flagAt, flagWritable)
    }

    /** load_from_storage, which calls itself for the other slot; it is called only where that ends. */
    method LoadFrom(slot: SlotId, flagAt: nat -> Byte, flagWritable: bool, at: nat, ghost levels: nat) returns (ok: bool)
      requires Valid() && Load(Surroundings(flagAt, flagWritable), Media(), slot, entries, health, at, levels).Within?
      modifies `entries, `health, `flag
      ensures Valid()
      ensures Load(Surroundings(flagAt, flagWritable), old(Media()), slot, old(entries), old(health), at, levels) ==
              Within(Loaded(ok, entries, health, flag))
      decreases levels
    {
      hide EntryOk;
      hide Crc.TableEntry;
      hide Parse;
      hide Crc32;
      ghost var st := Media();
      var c := Read(if slot == 0 then slotA else slotB);
      if c.Unreadable? { return false; }
      if |c.s| < 6 { return false; }
      var crc := Crc32Le(c.s[4..]);
      if U32(c.s[..4]) != crc {
        assert Inspect(Get(st, slot)).Corrupt?;
        if flagAt(at) != FlagOf(1 - slot) {
          var found := LoadFrom(1 - slot, flagAt, flagWritable, at + 1, levels - 1);
          if found {
            if flagWritable { flag := FlagOf(1 - slot); }
            health := 1;
            return true;
          }
        }
        health := -1;
        entries := factory;
        return true;
      }
      ok := Deserialize(c.s[4..]);
    }

    /** config_store_init on ready storage. It ends unless the fallback of the named slot is endless. */
    method Initialise(flagAt: nat -> Byte, flagWritable: bool) returns (ghost levels: nat)
      requires Valid() && health == 0
      requires flagAt(0) == FLAG_A ==> !Endless(Surroundings(flagAt, flagWritable), Media(), 0, 1)
      requires flagAt(0) == FLAG_B ==> !Endless(Surroundings(flagAt, flagWritable), Media(), 1, 1)
      modifies `entries, `health, `flag
      ensures Valid()
      ensures var d := Init(Surroundings(flagAt, flagWritable), old(Media()), levels);
              d.Within? && d.r.es == entries && d.r.health == health && d.r.flag == flag
    {
      hide EntryOk;
      hide Crc.TableEntry;
      hide Load;
      hide Endless;
      entries := factory;
      levels := 1;
      ghost var v := Surroundings(flagAt, flagWritable);
      if flagAt(0) == FLAG_A {
        FallbackEndsIff(v, Media(), 0, factory, 0, 1);
        levels :| Load(v, Media(), 0, factory, 0, 1, levels).Within?;
        var _ := LoadFrom(0, flagAt, flagWritable, 1, levels);
      } else if flagAt(0) == FLAG_B {
        FallbackEndsIff(v, Media(), 1, factory, 0, 1);
        levels :| Load(v, Media(), 1, factory, 0, 1, levels).Within?;
        var _ := LoadFrom(1, flagAt, flagWritable, 1, levels);
      }
    }

    /** config_store_commit: write the slot the flag does not name, read it back, then move the flag. */
    method CommitTo(buf: array<Byte>, d: Driver) returns (ret: Ret)
      requires Valid() && buf.Length == BLOB_MAX + SLACK && buf as object != table
      modifies buf, `flag, `slotA, `slotB
      ensures Valid()
      ensures (ret, Media()) == Commit(old(Media()), entries, d)
    {
      hide EntryOk;
      hide Crc.TableEntry;
      hide Crc32;
      var ok, n := Serialize(buf, BLOB_MAX);
      if !ok { return NoSpace; }
      if !d.ready { return Again; }
      var target := if d.flagReadable && flag == FLAG_A then 1 else 0;
      ok, n := Serialize(buf, BLOB_MAX - 4);
      if !ok { return Io; }
      var crc := Crc32Le(buf[..n]);
      var image := Le32(crc) + buf[..n];
      if target == 0 { slotA := d.left; } else { slotB := d.left; }
      if !d.wrote { return Io; }
      if !d.readable || Read(d.left) != Bytes(image) { return Io; }
      if d.flagTakes {
        flag := if target == 0 then FLAG_A else FLAG_B;
      }
      return if !d.powered then Cut else if d.flagReported then Ok else Io;
    }
  }

  /** A value takes at most SLACK bytes more than the reserve. */
  lemma EntryReserve(e: Entry)
    requires EntryOk(e)
    ensures |EntryBytes(e)| <= 2 + |e.key| + RESERVE + SLACK
  {
  }

  lemma TailKept(now: seq<Byte>, was: seq<Byte>, pos: nat, size: nat)
    requires pos <= |now| == |was| && size <= |now| && forall j :: pos <= j < |now| ==> now[j] == was[j]
    ensures pos <= size ==> now[size..] == was[size..]
  {
  }

  lemma CrcIndex(crc: nat, b: Byte)
    ensures And(Xor(crc, b), 0xFF) < 256
    ensures Crc.FeedBits(CRC_MODEL, crc, b, 8) == Xor(Crc.TableEntry(CRC_MODEL, And(Xor(crc, b), 0xFF)), Shr(crc, 8))
  {
    WordBound();
    Crc.TableStepReflected(CRC_MODEL, crc, b);
    CrcEngine.IndexReflected(crc, b);
    XorComm(Shr(crc, 8), Crc.TableEntry(CRC_MODEL, And(Xor(crc, b), 0xFF)));
  }
}
