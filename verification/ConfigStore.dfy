/** The configuration store on two slots and a flag byte: commit under power loss, loading with
    its fallback between the slots, and what initialisation makes visible. */
module ConfigStore {
  import opened Bits
  import opened LittleEndian
  import opened ConfigCodec
  import Crc

  const BLOB_MAX: nat := 4096
  const FLAG_A: Byte := 0xA0
  const FLAG_B: Byte := 0x0B

  // ---- Slots and their checksum ----

  const CRC_MODEL: Crc.Model := Crc.Model(32, 0xEDB88320, true)

  /** crc32_le from a zero register. */
  function Crc32(data: seq<Byte>): nat {
    Crc.Feed(CRC_MODEL, 0, data)
  }

  lemma WordBound()
    ensures Pow2(32) == 0x1_0000_0000
  {
    Pow2Add(8, 8);
    Pow2Add(16, 16);
    assert Pow2(8) == 256;
  }

  lemma Crc32Range(data: seq<Byte>)
    ensures Crc32(data) < 0x1_0000_0000
  {
    WordBound();
    Crc.FeedRange(CRC_MODEL, 0, data);
  }

  datatype Slot = Unreadable | Bytes(s: seq<Byte>)

  /** Slot 0 is A, slot 1 is B. */
  datatype Storage = Storage(flag: Byte, a: Slot, b: Slot)

  type SlotId = i: nat | i <= 1

  function FlagOf(slot: SlotId): Byte {
    if slot == 0 then FLAG_A else FLAG_B
  }

  function Get(st: Storage, slot: SlotId): Slot {
    if slot == 0 then st.a else st.b
  }

  function Put(st: Storage, slot: SlotId, c: Slot): Storage {
    if slot == 0 then st.(a := c) else st.(b := c)
  }

  /** What a slot holds when a table was written to it completely. */
  ghost function Image(es: seq<Entry>): seq<Byte>
    requires TableOk(es)
  {
    Le32(Crc32(Blob(es))) + Blob(es)
  }

  datatype Inspection = Missing | Corrupt | Good(blob: seq<Byte>)

  /** What a read into a buffer of BLOB_MAX bytes delivers. */
  function Read(c: Slot): (r: Slot)
    ensures r.Bytes? ==> |r.s| <= BLOB_MAX
  {
    if c.Bytes? && |c.s| > BLOB_MAX then Bytes(c.s[..BLOB_MAX]) else c
  }

  function Judge(s: seq<Byte>): Inspection {
    if |s| < 6 then Missing
    else if U32(s[..4]) != Crc32(s[4..]) then Corrupt
    else Good(s[4..])
  }

  function Inspect(c: Slot): Inspection {
    var r := Read(c);
    if r.Unreadable? then Missing else Judge(r.s)
  }

  lemma ImageIsGood(es: seq<Entry>)
    requires TableOk(es)
    ensures |Image(es)| == 4 + |Blob(es)| && Judge(Image(es)) == Good(Blob(es))
  {
    hide Crc32;
    hide Le32;
    Crc32Range(Blob(es));
    Le32RoundTrip(Crc32(Blob(es)));
    PrefixLength(es, |es|);
    assert Image(es)[..4] == Le32(Crc32(Blob(es)));
    assert Image(es)[4..] == Blob(es);
  }

  /** What is read of a slot: at most the buffer's size. */
  function Kept(c: Slot): seq<Byte>
    requires c.Bytes?
  {
    if |c.s| <= BLOB_MAX then c.s else c.s[..BLOB_MAX]
  }

  /** A slot counts as missing exactly when it cannot be read or gives fewer than six bytes, and as good exactly
      when what it gives is some blob behind the blob's own checksum. */
  lemma InspectionIs(c: Slot)
    ensures Inspect(c).Missing? <==> c.Unreadable? || |Kept(c)| < 6
    ensures Inspect(c).Good? <==> c.Bytes? && |Kept(c)| >= 6 && Kept(c)[..4] == Le32(Crc32(Kept(c)[4..]))
    ensures Inspect(c).Good? ==> Kept(c) == Le32(Crc32(Inspect(c).blob)) + Inspect(c).blob
  {
    hide Crc32;
    hide Le32;
    hide U32;
    if c.Bytes? && |Kept(c)| >= 6 {
      var s := Kept(c);
      assert Read(c) == Bytes(s);
      Crc32Range(s[4..]);
      Le32RoundTrip(Crc32(s[4..]));
      Le32Inverse(s[..4]);
      assert s == s[..4] + s[4..];
    }
  }

  // ---- Loading ----

  datatype Loaded = Loaded(ok: bool, es: seq<Entry>, health: int, flag: Byte)

  datatype Depth = TooDeep | Within(r: Loaded)

  /** What loading depends on besides the storage: the table load_factory_defaults parses, the number of
      entries allowed, what the i-th read of the flag returns (0xFF if it fails), and whether the flag
      update of the fallback takes effect. */
  datatype Env = Env(factory: seq<Entry>, max: nat, flagAt: nat -> Byte, flagWritable: bool)

  /** load_from_storage with at most `levels` nested calls; its next read of the flag is number `at`. */
  function Load(v: Env, st: Storage, slot: SlotId, es: seq<Entry>, health: int, at: nat, levels: nat): Depth
    decreases levels
  {
    if levels == 0 then TooDeep
    else
      match Inspect(Get(st, slot))
      case Missing => Within(Loaded(false, es, health, st.flag))
      case Good(blob) =>
        var (ok, es') := Parse(blob, es, v.max);
        Within(Loaded(ok, es', health, st.flag))
      case Corrupt =>
        if v.flagAt(at) == FlagOf(1 - slot) then Within(Loaded(true, v.factory, -1, st.flag))
        else
          match Load(v, st, 1 - slot, es, health, at + 1, levels - 1)
          case TooDeep => TooDeep
          case Within(r) =>
            if r.ok then Within(Loaded(true, r.es, 1, if v.flagWritable then FlagOf(1 - slot) else r.flag))
            else Within(Loaded(true, v.factory, -1, r.flag))
  }

  predicate BothCorrupt(st: Storage) {
    Inspect(st.a).Corrupt? && Inspect(st.b).Corrupt?
  }

  /** The slot looked at i levels down. */
  function Alternate(slot: SlotId, i: nat): SlotId {
    if i % 2 == 0 then slot else 1 - slot
  }

  /** The read of the flag i levels down does not name the slot to fall back to. */
  predicate Misses(v: Env, slot: SlotId, at: nat, i: nat) {
    v.flagAt(at + i) != FlagOf(1 - Alternate(slot, i))
  }

  /** Both slots are corrupt, and no read of the flag ever names the slot to fall back to. */
  ghost predicate Endless(v: Env, st: Storage, slot: SlotId, at: nat) {
    BothCorrupt(st) && forall i: nat :: Misses(v, slot, at, i)
  }

  lemma {:induction false} EndlessIsTooDeep(v: Env, st: Storage, slot: SlotId, es: seq<Entry>, health: int, at: nat, levels: nat)
    requires Endless(v, st, slot, at)
    ensures Load(v, st, slot, es, health, at, levels).TooDeep?
    decreases levels
  {
    hide Inspect;
    hide Parse;
    if levels > 0 {
      var other: SlotId, next: nat := 1 - slot, at + 1;
      forall i: nat ensures Misses(v, other, next, i) {
        assert Alternate(other, i) == Alternate(slot, i + 1);
        assert Misses(v, slot, at, i + 1);
      }
      assert Misses(v, slot, at, 0);
      EndlessIsTooDeep(v, st, 1 - slot, es, health, at + 1, levels - 1);
    }
  }

  lemma {:induction false} ReadEndsFallback(v: Env, st: Storage, slot: SlotId, es: seq<Entry>, health: int, at: nat, i: nat)
    requires !Misses(v, slot, at, i)
    ensures Load(v, st, slot, es, health, at, i + 1).Within?
    decreases i
  {
    hide Inspect;
    hide Parse;
    if i > 0 {
      assert Alternate(slot, i) == Alternate(1 - slot, i - 1);
      ReadEndsFallback(v, st, 1 - slot, es, health, at + 1, i - 1);
    }
  }

  /** Without two corrupt slots two levels are enough. */
  lemma SoundSlotEnds(v: Env, st: Storage, slot: SlotId, es: seq<Entry>, health: int, at: nat)
    requires !BothCorrupt(st)
    ensures Load(v, st, slot, es, health, at, 2).Within?
  {
    hide Inspect;
    hide Parse;
    assert !Inspect(Get(st, slot)).Corrupt? || !Inspect(Get(st, 1 - slot)).Corrupt?;
    assert !Inspect(Get(st, 1 - slot)).Corrupt? ==> Load(v, st, 1 - slot, es, health, at + 1, 1).Within?;
  }

  ghost predicate Ends(v: Env, st: Storage, slot: SlotId, es: seq<Entry>, health: int, at: nat) {
    exists levels: nat :: Load(v, st, slot, es, health, at, levels).Within?
  }

  /** The fallback recursion ends if and only if a slot is not corrupt or some read of the flag names the
      slot it would fall back to. */
  lemma FallbackEndsIff(v: Env, st: Storage, slot: SlotId, es: seq<Entry>, health: int, at: nat)
    ensures Ends(v, st, slot, es, health, at) <==> !Endless(v, st, slot, at)
  {
    hide Load;
    if Endless(v, st, slot, at) {
      forall levels: nat ensures Load(v, st, slot, es, health, at, levels).TooDeep? {
        EndlessIsTooDeep(v, st, slot, es, health, at, levels);
      }
    } else if BothCorrupt(st) {
      var i: nat :| !Misses(v, slot, at, i);
      ReadEndsFallback(v, st, slot, es, health, at, i);
    } else {
      SoundSlotEnds(v, st, slot, es, health, at);
    }
  }

  ghost predicate Stable(v: Env, flag: Byte) {
    forall i: nat :: v.flagAt(i) == flag
  }

  /** With a flag that always reads the same, two levels are enough or none are, and none are exactly
      when it names no slot and both are corrupt. */
  lemma StableFlagEndsIff(v: Env, st: Storage, slot: SlotId, es: seq<Entry>, health: int, at: nat, flag: Byte)
    requires Stable(v, flag)
    ensures Load(v, st, slot, es, health, at, 2).Within? <==> Ends(v, st, slot, es, health, at)
    ensures Ends(v, st, slot, es, health, at) <==> !(BothCorrupt(st) && flag != FLAG_A && flag != FLAG_B)
  {
    hide Inspect;
    hide Parse;
    FallbackEndsIff(v, st, slot, es, health, at);
    assert v.flagAt(at) == flag && v.flagAt(at + 1) == flag;
    if BothCorrupt(st) && (flag == FLAG_A || flag == FLAG_B) {
      assert v.flagAt(at + 0) == flag && v.flagAt(at + 1) == flag;
      assert !Endless(v, st, slot, at) by {
        assert !Misses(v, slot, at, if flag == FlagOf(1 - slot) then 0 else 1);
      }
      StableTwoLevels(v, st, slot, es, health, at, flag);
    } else if !BothCorrupt(st) {
      SoundSlotEnds(v, st, slot, es, health, at);
    } else {
      forall i: nat ensures Misses(v, slot, at, i) {
        assert v.flagAt(at + i) == flag;
      }
    }
  }

  lemma StableTwoLevels(v: Env, st: Storage, slot: SlotId, es: seq<Entry>, health: int, at: nat, flag: Byte)
    requires Stable(v, flag) && (flag == FLAG_A || flag == FLAG_B)
    ensures Load(v, st, slot, es, health, at, 2).Within?
  {
    hide Inspect;
    hide Parse;
    if flag != FlagOf(1 - slot) {
      assert v.flagAt(at + 1) == FlagOf(1 - (1 - slot));
      assert Load(v, st, 1 - slot, es, health, at + 1, 1).Within?;
    }
  }

  /** config_store_init: load the factory table, then the slot the first read names on top of it. */
  function Init(v: Env, st: Storage, levels: nat): Depth {
    if v.flagAt(0) == FLAG_A then Load(v, st, 0, v.factory, 0, 1, levels)
    else if v.flagAt(0) == FLAG_B then Load(v, st, 1, v.factory, 0, 1, levels)
    else Within(Loaded(true, v.factory, 0, st.flag))
  }

  /** With a stable flag initialisation always ends, and leaves a table that is well-formed and within
      its limit. */
  lemma InitEnds(v: Env, st: Storage)
    requires Stable(v, st.flag) && TableOk(v.factory) && |v.factory| <= v.max < 0x1_0000
    ensures var d := Init(v, st, 2); d.Within? && TableOk(d.r.es) && |d.r.es| <= v.max && v.factory <= d.r.es
  {
    hide Inspect;
    hide Parse;
    StableFlagEndsIff(v, st, 0, v.factory, 0, 1, st.flag);
    StableFlagEndsIff(v, st, 1, v.factory, 0, 1, st.flag);
    assert v.flagAt(0) == st.flag;
    SlotParses(st, 0, v.factory, v.max);
    SlotParses(st, 1, v.factory, v.max);
  }

  /** The table in use after initialisation, for any flag reads. A first read that names no slot leaves the
      factory table, as on a first boot; so does a named slot that is missing or too short. A named slot
      that passes its checksum is parsed on top of the factory table. In all of these health is 0 and the
      flag as it was; for a corrupt slot see HealthReport. */
  lemma StartTable(v: Env, st: Storage, levels: nat)
    requires levels > 0
    ensures v.flagAt(0) != FLAG_A && v.flagAt(0) != FLAG_B ==>
              Init(v, st, levels) == Within(Loaded(true, v.factory, 0, st.flag))
    ensures v.flagAt(0) == FLAG_A || v.flagAt(0) == FLAG_B ==>
              var named := Inspect(if v.flagAt(0) == FLAG_A then st.a else st.b);
              && (named.Missing? ==> Init(v, st, levels) == Within(Loaded(false, v.factory, 0, st.flag)))
              && (named.Good? ==>
                    var (ok, es) := Parse(named.blob, v.factory, v.max);
                    Init(v, st, levels) == Within(Loaded(ok, es, 0, st.flag)))
  {
    hide Inspect;
    hide Parse;
  }

  lemma SlotParses(st: Storage, slot: SlotId, es: seq<Entry>, max: nat)
    requires TableOk(es) && |es| <= max < 0x1_0000
    ensures Inspect(Get(st, slot)).Good? ==>
              var p := Parse(Inspect(Get(st, slot)).blob, es, max); TableOk(p.1) && es <= p.1 && |p.1| <= max
  {
    hide Inspect;
    if Inspect(Get(st, slot)).Good? {
      var blob := Inspect(Get(st, slot)).blob;
      if |blob| >= 2 { ParseEntriesOk(blob, 2, U16(blob[0], blob[1]), es, max); }
    }
  }

  /** Initialisation does run into the endless case when the flag, read once, can no longer be read and
      both slots are corrupt. */
  lemma UnreadableFlagHangs(v: Env, st: Storage, levels: nat)
    requires v.flagAt(0) == FLAG_A && BothCorrupt(st) && forall i: nat :: i > 0 ==> v.flagAt(i) == 0xFF
    ensures Init(v, st, levels).TooDeep?
  {
    hide Inspect;
    forall i: nat ensures Misses(v, 0, 1, i) {
      assert v.flagAt(1 + i) == 0xFF;
    }
    EndlessIsTooDeep(v, st, 0, v.factory, 0, 1, levels);
  }

  // ---- What health reports ----

  /** The other slot holds a table that can be parsed. */
  predicate Usable(i: Inspection, v: Env) {
    i.Good? && Parse(i.blob, v.factory, v.max).0
  }

  /** For a flag that reads the same and names a slot: recovery (1) is reported exactly when the named slot
      is corrupt and the other one is usable or corrupt too; the report is true, the table coming from
      the other slot, exactly when not both are corrupt. Otherwise a corrupt named slot gives the factory
      table and -1, and any other named slot leaves health at 0. The flag moves with the report if it
      can be written. Loading succeeds on a corrupt slot and on one that can be parsed. */
  lemma HealthReport(v: Env, st: Storage)
    requires Stable(v, st.flag) && (st.flag == FLAG_A || st.flag == FLAG_B)
    ensures var named := Inspect(if st.flag == FLAG_A then st.a else st.b);
            var other := Inspect(if st.flag == FLAG_A then st.b else st.a);
            var d := Init(v, st, 2);
            && d.Within?
            && (d.r.health == 1 <==> named.Corrupt? && (Usable(other, v) || other.Corrupt?))
            && (d.r.health == -1 <==> named.Corrupt? && !Usable(other, v) && !other.Corrupt?)
            && (d.r.health == 0 <==> !named.Corrupt?)
            && (d.r.health == 1 ==>
                  && (Usable(other, v) <==> !BothCorrupt(st))
                  && d.r.es == (if BothCorrupt(st) then v.factory else Parse(other.blob, v.factory, v.max).1)
                  && d.r.flag == if !v.flagWritable then st.flag else if st.flag == FLAG_A then FLAG_B else FLAG_A)
            && (d.r.health == -1 ==> d.r.es == v.factory && d.r.flag == st.flag)
            && (d.r.ok <==> named.Corrupt? || Usable(named, v))
            && (d.r.health == 0 ==>
                  d.r.flag == st.flag && d.r.es == if named.Good? then Parse(named.blob, v.factory, v.max).1 else v.factory)
  {
    hide Inspect;
    hide Parse;
    assert v.flagAt(0) == st.flag && v.flagAt(1) == st.flag && v.flagAt(2) == st.flag;
    var slot: SlotId := if st.flag == FLAG_A then 0 else 1;
    var other: SlotId := 1 - slot;
    assert Get(st, slot) == if st.flag == FLAG_A then st.a else st.b;
    assert Get(st, other) == if st.flag == FLAG_A then st.b else st.a;
    var inner := Load(v, st, other, v.factory, 0, 2, 1);
    assert Inspect(Get(st, other)).Corrupt? ==> inner == Within(Loaded(true, v.factory, -1, st.flag));
  }

  // ---- Committing under power loss ----

  /** What the storage driver does during a commit. `left` is what the target slot holds after the
      write, torn or complete; `wrote` what the write reported; `readable` whether the read-back
      works; `flagTakes` whether the flag byte changes and `flagReported` whether its write reports
      success. A power loss at a step reads as that step failing, except that one after the flag
      write shows in `powered` alone. */
  datatype Driver = Driver(ready: bool, flagReadable: bool, left: Slot, wrote: bool, readable: bool,
                           flagTakes: bool, flagReported: bool, powered: bool)

  datatype Ret = Ok | NoSpace | Again | Io | Cut

  /** The slot to write: the one the flag does not name, as far as the flag can be read. */
  function Target(st: Storage, flagReadable: bool): SlotId {
    if flagReadable && st.flag == FLAG_A then 1 else 0
  }

  /** The commit gets as far as the flag write. */
  ghost predicate Reaches(es: seq<Entry>, d: Driver)
    requires TableOk(es)
  {
    && Accepts(es, BLOB_MAX) && d.ready && Accepts(es, BLOB_MAX - 4)
    && d.wrote && d.readable && Read(d.left) == Bytes(Image(es))
  }

  /** The flag byte moves to the new table. */
  ghost predicate Took(es: seq<Entry>, d: Driver)
    requires TableOk(es)
  {
    Reaches(es, d) && d.flagTakes
  }

  /** config_store_commit without a hook. */
  ghost function Commit(st: Storage, es: seq<Entry>, d: Driver): (Ret, Storage)
    requires TableOk(es)
  {
    if !Accepts(es, BLOB_MAX) then (NoSpace, st)
    else if !d.ready then (Again, st)
    else if !Accepts(es, BLOB_MAX - 4) then (Io, st)
    else
      var t := Target(st, d.flagReadable);
      var written := Put(st, t, d.left);
      if !Reaches(es, d) then (Io, written)
      else
        (if !d.powered then Cut else if d.flagReported then Ok else Io,
         if d.flagTakes then written.(flag := FlagOf(t)) else written)
  }

  /** A table that passes the serialiser's tests but whose image is longer than the buffer is never committed:
      the read-back delivers less than was written. */
  lemma OversizeIsNotCommitted(st: Storage, es: seq<Entry>, d: Driver)
    requires TableOk(es) && |Image(es)| > BLOB_MAX
    ensures Commit(st, es, d).0 != Ok && Commit(st, es, d).1.flag == st.flag
  {
    hide Image;
    hide Accepts;
  }

  datatype Current = Fresh | Saved(es: seq<Entry>)

  /** What can be read of the slot the flag names is exactly the image of this table. */
  ghost predicate Names(st: Storage, cur: Current) {
    if st.flag == FLAG_A then cur.Saved? && TableOk(cur.es) && Read(st.a) == Bytes(Image(cur.es))
    else if st.flag == FLAG_B then cur.Saved? && TableOk(cur.es) && Read(st.b) == Bytes(Image(cur.es))
    else cur.Fresh?
  }

  lemma ImageInjective(a: seq<Entry>, b: seq<Entry>)
    requires TableOk(a) && TableOk(b) && Image(a) == Image(b)
    ensures a == b
  {
    hide Image;
    hide Judge;
    hide Parse;
    ImageIsGood(a);
    ImageIsGood(b);
    TableRoundTrip(a, [], 0x1_0000);
    TableRoundTrip(b, [], 0x1_0000);
    assert [] + a == a && [] + b == b;
  }

  lemma NamesOne(st: Storage, a: Current, b: Current)
    requires Names(st, a) && Names(st, b)
    ensures a == b
  {
    hide Image;
    if a.Saved? { ImageInjective(a.es, b.es); }
  }

  /** With a readable flag, a commit cut off anywhere leaves the flag on a complete image: of the new table
      if the flag byte moved, else of the old one. */
  lemma CommitIsAtomic(st: Storage, cur: Current, es: seq<Entry>, d: Driver)
    requires Names(st, cur) && TableOk(es) && (d.flagReadable || st.flag != FLAG_A)
    ensures Names(Commit(st, es, d).1, if Took(es, d) then Saved(es) else cur)
  {
    hide Image;
    hide Accepts;
  }

  /** What the result says about the storage: an error or a cut leaves the old table named exactly when
      the flag byte did not move (or both tables are the same), and success means the new one exactly
      when it did. */
  lemma ResultMeans(st: Storage, cur: Current, es: seq<Entry>, d: Driver)
    requires Names(st, cur) && TableOk(es) && (d.flagReadable || st.flag != FLAG_A)
    ensures var (ret, st') := Commit(st, es, d);
            && (Names(st', cur) <==> !Took(es, d) || cur == Saved(es))
            && (Names(st', Saved(es)) <==> Took(es, d) || cur == Saved(es))
            && (ret == Ok <==> Reaches(es, d) && d.flagReported && d.powered)
            && (ret == NoSpace || ret == Again ==> st' == st)
  {
    hide Names;
    hide Image;
    hide Accepts;
    CommitIsAtomic(st, cur, es, d);
    var st' := Commit(st, es, d).1;
    if Names(st', cur) && Took(es, d) { NamesOne(st', cur, Saved(es)); }
    if Names(st', Saved(es)) && !Took(es, d) { NamesOne(st', cur, Saved(es)); }
  }

  /** So with a driver that reports the flag write truthfully success means the new table and an error
      the old one, and with one that does not there is a commit for which one of the two fails. */
  ghost predicate Truthful(d: Driver) { d.flagReported == d.flagTakes }

  lemma TruthfulResult(st: Storage, cur: Current, es: seq<Entry>, d: Driver)
    requires Names(st, cur) && TableOk(es) && (d.flagReadable || st.flag != FLAG_A)
    requires Reaches(es, d) && d.powered && cur != Saved(es)
    ensures var (ret, st') := Commit(st, es, d);
            (ret == Ok ==> Names(st', Saved(es))) && (ret == Io ==> Names(st', cur)) <==> Truthful(d)
  {
    hide Names;
    hide Reaches;
    ResultMeans(st, cur, es, d);
    assert Commit(st, es, d).0 == if d.flagReported then Ok else Io by { CommitAnswers(st, es, d); }
  }

  lemma CommitAnswers(st: Storage, es: seq<Entry>, d: Driver)
    requires TableOk(es) && Reaches(es, d) && d.powered
    ensures Commit(st, es, d).0 == if d.flagReported then Ok else Io
  {
    hide Image;
    hide Accepts;
  }

  /** Every result by its cause: a table too long for the buffer, a driver that is not ready, power lost after
      the flag write, a step that failed. Only the target slot and the flag ever change: the slot holds what
      the write left exactly when the table was handed to a ready driver, and the flag names the target
      exactly when it took. */
  lemma CommitCauses(st: Storage, es: seq<Entry>, d: Driver)
    requires TableOk(es)
    ensures var (ret, st') := Commit(st, es, d);
            var t: SlotId := Target(st, d.flagReadable);
            var (fits, whole) := (Accepts(es, BLOB_MAX), Accepts(es, BLOB_MAX - 4));
            && (ret == NoSpace <==> !fits)
            && (ret == Again <==> fits && !d.ready)
            && (ret == Cut <==> Reaches(es, d) && !d.powered)
            && (ret == Io <==> fits && d.ready && (Reaches(es, d) ==> d.powered && !d.flagReported))
            && Get(st', 1 - t) == Get(st, 1 - t)
            && Get(st', t) == (if fits && d.ready && whole then d.left else Get(st, t))
            && st'.flag == if Took(es, d) then FlagOf(t) else st.flag
  {
    hide Image;
    hide Accepts;
  }

  /** If the flag names slot A and cannot be read, the commit writes over slot A itself: whatever a torn
      write leaves there is then what the flag names. With a readable flag no tearing does that. */
  ghost predicate SurvivesTearing(st: Storage, cur: Current, es: seq<Entry>, flagReadable: bool)
    requires TableOk(es)
  {
    forall d: Driver | d.flagReadable == flagReadable ::
      Names(Commit(st, es, d).1, cur) || Names(Commit(st, es, d).1, Saved(es))
  }

  lemma SurvivesTearingIff(st: Storage, cur: Current, es: seq<Entry>, flagReadable: bool)
    requires Names(st, cur) && TableOk(es) && Accepts(es, BLOB_MAX) && Accepts(es, BLOB_MAX - 4)
    ensures SurvivesTearing(st, cur, es, flagReadable) <==> flagReadable || st.flag != FLAG_A
  {
    hide Image;
    hide Accepts;
    if flagReadable || st.flag != FLAG_A {
      forall d: Driver | d.flagReadable == flagReadable
        ensures Names(Commit(st, es, d).1, cur) || Names(Commit(st, es, d).1, Saved(es))
      {
        CommitIsAtomic(st, cur, es, d);
      }
    } else {
      var d := Driver(true, false, Unreadable, false, false, false, false, false);
      assert Commit(st, es, d).1 == st.(a := Unreadable);
    }
  }

  datatype Attempt = Attempt(es: seq<Entry>, d: Driver)

  ghost predicate AttemptsOk(run: seq<Attempt>) {
    forall i :: 0 <= i < |run| ==> TableOk(run[i].es) && run[i].d.flagReadable
  }

  ghost function Run(st: Storage, run: seq<Attempt>): Storage
    requires AttemptsOk(run)
    decreases |run|
  {
    if run == [] then st else Run(Commit(st, run[0].es, run[0].d).1, run[1..])
  }

  /** The table of the last attempt whose flag write took effect. */
  ghost function CurrentAfter(cur: Current, run: seq<Attempt>): Current
    requires AttemptsOk(run)
    decreases |run|
  {
    if run == [] then cur
    else CurrentAfter(if Took(run[0].es, run[0].d) then Saved(run[0].es) else cur, run[1..])
  }

  lemma {:induction false} RunKeepsNamed(st: Storage, cur: Current, run: seq<Attempt>)
    requires AttemptsOk(run) && Names(st, cur)
    ensures Names(Run(st, run), CurrentAfter(cur, run))
    ensures CurrentAfter(cur, run) == cur || exists i :: 0 <= i < |run| && CurrentAfter(cur, run) == Saved(run[i].es)
    decreases |run|
  {
    hide Commit;
    hide Names;
    hide Took;
    if run != [] {
      CommitIsAtomic(st, cur, run[0].es, run[0].d);
      var st' := Commit(st, run[0].es, run[0].d).1;
      var next := if Took(run[0].es, run[0].d) then Saved(run[0].es) else cur;
      RunKeepsNamed(st', next, run[1..]);
      if CurrentAfter(next, run[1..]) != next {
        var i :| 0 <= i < |run[1..]| && CurrentAfter(next, run[1..]) == Saved(run[1..][i].es);
        assert run[1..][i] == run[i + 1];
      }
    }
  }

  /** Attempts that all fail or are cut before their flag takes effect leave a committed table in place. */
  lemma {:induction false} CommittedStays(st: Storage, cur: Current, run: seq<Attempt>)
    requires AttemptsOk(run) && Names(st, cur)
    requires forall i :: 0 <= i < |run| ==> !(run[i].d.wrote && run[i].d.readable && run[i].d.flagTakes)
    ensures Names(Run(st, run), cur)
    decreases |run|
  {
    hide Names;
    hide Commit;
    hide Image;
    if run != [] {
      CommitIsAtomic(st, cur, run[0].es, run[0].d);
      CommittedStays(Commit(st, run[0].es, run[0].d).1, cur, run[1..]);
    }
  }

  /** Loading the named slot appends as much of its table as there is room for, whatever the other slot
      holds and the flag reads; if all of it fits, loading reports success. */
  lemma NamedSlotLoads(v: Env, st: Storage, es: seq<Entry>, base: seq<Entry>, health: int, at: nat, levels: nat)
    requires Names(st, Saved(es)) && levels > 0
    ensures st.flag == FLAG_A || st.flag == FLAG_B
    ensures var d := Load(v, st, if st.flag == FLAG_A then 0 else 1, base, health, at, levels);
            && d.Within? && d.r.es == base + es[..Room(es, |base|, v.max)] && d.r.health == health && d.r.flag == st.flag
            && (|base| + |es| <= v.max ==> d.r.ok)
  {
    hide Judge;
    hide Read;
    hide Parse;
    hide Image;
    ImageIsGood(es);
    TableUpToRoom(es, base, v.max);
    if |base| + |es| <= v.max { TableRoundTrip(es, base, v.max); }
  }

  /** After any run of commits cut off anywhere, loading into an empty table gives exactly the table
      of the last attempt whose flag took effect. */
  lemma LoadAfterAnyCrash(v: Env, st: Storage, cur: Current, run: seq<Attempt>, at: nat)
    requires AttemptsOk(run) && Names(st, cur) && CurrentAfter(cur, run).Saved?
    requires |CurrentAfter(cur, run).es| <= v.max
    ensures var end := Run(st, run);
            Load(v, end, if end.flag == FLAG_A then 0 else 1, [], 0, at, 1) ==
              Within(Loaded(true, CurrentAfter(cur, run).es, 0, end.flag))
  {
    hide Names;
    hide Load;
    RunKeepsNamed(st, cur, run);
    var es := CurrentAfter(cur, run).es;
    NamedSlotLoads(v, Run(st, run), es, [], 0, at, 1);
    assert [] + es[..|es|] == es;
  }

  // ---- What initialisation makes visible ----

  /** The position of the first entry with the key, or the length of the table. */
  function Position(es: seq<Entry>, key: seq<Byte>): (k: nat)
    ensures k <= |es|
  {
    if es == [] || es[0].key == key then 0 else 1 + Position(es[1..], key)
  }

  datatype Found = Absent | There(e: Entry)

  /** find_entry. */
  function Find(es: seq<Entry>, key: seq<Byte>): Found {
    var k := Position(es, key);
    if k < |es| then There(es[k]) else Absent
  }

  /** The entry found is the first with the key, and none is found exactly when no entry has it. */
  lemma {:induction false} FindsFirst(es: seq<Entry>, key: seq<Byte>)
    ensures var k := Position(es, key);
            (forall i :: 0 <= i < k ==> es[i].key != key) && (k < |es| ==> es[k].key == key)
    ensures Find(es, key).Absent? <==> forall i :: 0 <= i < |es| ==> es[i].key != key
  {
    if es != [] && es[0].key != key {
      FindsFirst(es[1..], key);
      forall i | 0 <= i < Position(es, key) ensures es[i].key != key {
        assert i > 0 ==> es[i] == es[1..][i - 1];
      }
    }
  }

  lemma {:induction false} PositionConcat(a: seq<Entry>, b: seq<Entry>, key: seq<Byte>)
    ensures Position(a + b, key) == if Position(a, key) < |a| then Position(a, key) else |a| + Position(b, key)
  {
    if a == [] {
      assert a + b == b;
    } else {
      assert (a + b)[1..] == a[1..] + b;
      PositionConcat(a[1..], b, key);
    }
  }

  /** For a factory table and a saved table of any sizes, the table in use after initialisation is the
      factory table with as many saved entries behind it as there is room for. So for each key the entry
      found is the saved one if and only if the factory table has the same one, or has none and the saved
      one is among those that had room (or there is none). */
  lemma SavedVisibleIff(v: Env, st: Storage, es: seq<Entry>, key: seq<Byte>, levels: nat)
    requires Names(st, Saved(es)) && v.flagAt(0) == st.flag && levels > 0
    ensures Init(v, st, levels).Within? && Init(v, st, levels).r.es == v.factory + es[..Room(es, |v.factory|, v.max)]
    ensures Find(Init(v, st, levels).r.es, key) == Find(es, key) <==>
            if Find(v.factory, key).There? then Find(v.factory, key) == Find(es, key)
            else Position(es, key) < Room(es, |v.factory|, v.max) || Position(es, key) == |es|
  {
    hide Load;
    hide Find;
    hide Position;
    NamedSlotLoads(v, st, es, v.factory, 0, 1, levels);
    FindBehind(v.factory, es, Room(es, |v.factory|, v.max), key);
  }

  lemma FindBehind(a: seq<Entry>, es: seq<Entry>, n: nat, key: seq<Byte>)
    requires n <= |es|
    ensures Find(a + es[..n], key) == Find(es, key) <==>
            if Find(a, key).There? then Find(a, key) == Find(es, key)
            else Position(es, key) < n || Position(es, key) == |es|
  {
    hide Position;
    PositionConcat(a, es[..n], key);
    PositionConcat(es[..n], es[n..], key);
    assert es[..n] + es[n..] == es;
  }

  /** In particular nothing saved is seen of the keys the factory table has, and nothing at all when it
      fills the table. */
  lemma FullFactoryHidesSaved(v: Env, st: Storage, es: seq<Entry>, levels: nat)
    requires Names(st, Saved(es)) && v.flagAt(0) == st.flag && levels > 0 && |v.factory| >= v.max
    ensures Init(v, st, levels).Within? && Init(v, st, levels).r.es == v.factory
  {
    SavedVisibleIff(v, st, es, [], levels);
    assert v.factory + es[..0] == v.factory;
  }
}
