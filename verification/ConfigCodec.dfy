/** The binary form of the configuration table: what serialising writes, what parsing makes of
    any byte string, and when the fixed value reserve of the serialiser is enough. */
module ConfigCodec {
  import opened Bits
  import opened LittleEndian

  const KEY_MAX: nat := 31    // char key[32] with its terminator
  const STR_MAX: nat := 63    // char s[64] with its terminator
  const RESERVE: nat := 8     // space the serialiser demands for a value of any type
  const ENTRY_MAX: nat := 98  // longest serialised entry: 1 + 31 + 1 + 2 + 63

  /** A configuration value. A type byte the parser does not know gives an entry without a value. */
  datatype Value = Int(i: int) | Float(bits: nat) | Bool(b: bool) | Str(s: seq<Byte>) | Other(tag: Byte)

  datatype Entry = Entry(key: seq<Byte>, value: Value)

  /** The contents of a C string of at most n characters. */
  ghost predicate Text(s: seq<Byte>, n: nat) {
    |s| <= n && forall i :: 0 <= i < |s| ==> s[i] != 0
  }

  ghost predicate ValueOk(v: Value) {
    match v
    case Int(i) => -0x8000_0000 <= i < 0x8000_0000
    case Float(bits) => bits < 0x1_0000_0000
    case Bool(_) => true
    case Str(s) => Text(s, STR_MAX)
    case Other(tag) => tag > 3
  }

  ghost predicate EntryOk(e: Entry) {
    Text(e.key, KEY_MAX) && ValueOk(e.value)
  }

  ghost predicate TableOk(es: seq<Entry>) {
    |es| < 0x1_0000 && forall i :: 0 <= i < |es| ==> EntryOk(es[i])
  }

  // ---- Serialised form ----

  function Tag(v: Value): Byte {
    match v
    case Int(_) => 0
    case Float(_) => 1
    case Bool(_) => 2
    case Str(_) => 3
    case Other(tag) => tag
  }

  /** Two's complement on 32 bits. */
  function ToWord(i: int): nat
    requires -0x8000_0000 <= i < 0x8000_0000
  {
    if i < 0 then i + 0x1_0000_0000 else i
  }

  function FromWord(w: nat): int {
    if w < 0x8000_0000 then w else w - 0x1_0000_0000
  }

  function ValueBytes(v: Value): seq<Byte>
    requires v.Int? ==> -0x8000_0000 <= v.i < 0x8000_0000
  {
    match v
    case Int(i) => Le32(ToWord(i))
    case Float(bits) => Le32(bits)
    case Bool(b) => [if b then 1 else 0]
    case Str(s) => Le16(|s|) + s
    case Other(_) => []
  }

  function EntryBytes(e: Entry): seq<Byte>
    requires |e.key| <= KEY_MAX && (e.value.Int? ==> -0x8000_0000 <= e.value.i < 0x8000_0000)
  {
    [|e.key| as Byte] + e.key + [Tag(e.value)] + ValueBytes(e.value)
  }

  /** The entry count and the first i entries. */
  ghost function Prefix(es: seq<Entry>, i: nat): seq<Byte>
    requires TableOk(es) && i <= |es|
  {
    if i == 0 then Le16(|es|) else Prefix(es, i - 1) + EntryBytes(es[i - 1])
  }

  ghost function Blob(es: seq<Entry>): seq<Byte>
    requires TableOk(es)
  {
    Prefix(es, |es|)
  }

  /** The value's bytes: a little-endian word, 1 or 0, or a length in front of the text. */
  lemma ValueLayout(v: Value)
    requires ValueOk(v)
    ensures var b := ValueBytes(v);
            && (v.Int? ==> |b| == 4 && U32(b) == if v.i < 0 then v.i + 0x1_0000_0000 else v.i)
            && (v.Float? ==> |b| == 4 && U32(b) == v.bits)
            && (v.Bool? ==> b == if v.b then [1] else [0])
            && (v.Str? ==> |b| == 2 + |v.s| && U16(b[0], b[1]) == |v.s| && b[2..] == v.s)
            && (v.Other? ==> b == [])
  {
    hide Le32;
    hide U32;
    if v.Int? { Le32RoundTrip(ToWord(v.i)); }
    if v.Float? { Le32RoundTrip(v.bits); }
    if v.Str? { Le16RoundTrip(|v.s|); }
  }

  lemma EntryLength(e: Entry)
    requires EntryOk(e)
    ensures 2 + |e.key| <= |EntryBytes(e)| <= ENTRY_MAX
    ensures e.value.Str? ==> |EntryBytes(e)| == 4 + |e.key| + |e.value.s|
  {
  }

  lemma {:induction false} PrefixLength(es: seq<Entry>, i: nat)
    requires TableOk(es) && i <= |es|
    ensures 2 <= |Prefix(es, i)| <= 2 + ENTRY_MAX * i
  {
    if i > 0 {
      PrefixLength(es, i - 1);
      EntryLength(es[i - 1]);
    }
  }

  lemma {:induction false} PrefixGrows(es: seq<Entry>, i: nat, j: nat)
    requires TableOk(es) && i <= j <= |es|
    ensures Prefix(es, i) <= Prefix(es, j)
  {
    hide EntryBytes;
    hide EntryOk;
    if i < j { PrefixGrows(es, i, j - 1); }
  }

  // ---- Parsing ----

  /** What C string functions see of a buffer. */
  function CText(s: seq<Byte>): seq<Byte> {
    if s == [] || s[0] == 0 then [] else [s[0]] + CText(s[1..])
  }

  lemma {:induction false} CTextOfText(s: seq<Byte>, n: nat)
    requires Text(s, n)
    ensures CText(s) == s
  {
    if s != [] { CTextOfText(s[1..], n); }
  }

  lemma {:induction false} CTextIsText(s: seq<Byte>)
    ensures Text(CText(s), |s|)
  {
    if s != [] && s[0] != 0 { CTextIsText(s[1..]); }
  }

  datatype Parsed = Parsed(ok: bool, pos: nat, es: seq<Entry>)

  /** The value add_entry leaves: all zero. */
  function Zero(tag: Byte): Value {
    match tag
    case 0 => Int(0)
    case 1 => Float(0)
    case 2 => Bool(false)
    case 3 => Str([])
    case _ => Other(tag)
  }

  /** The value at pos, read into the entry that was just appended to `es`; on a short buffer the
      entry stays with its zero value. */
  function ParseValue(buf: seq<Byte>, pos: nat, es: seq<Entry>, key: seq<Byte>, tag: Byte): Parsed {
    var len := |buf|;
    var short := Parsed(false, pos, es + [Entry(key, Zero(tag))]);
    match tag
    case 0 => if pos + 4 > len then short
              else Parsed(true, pos + 4, es + [Entry(key, Int(FromWord(U32(buf[pos..pos + 4]))))])
    case 1 => if pos + 4 > len then short
              else Parsed(true, pos + 4, es + [Entry(key, Float(U32(buf[pos..pos + 4])))])
    case 2 => if pos >= len then short else Parsed(true, pos + 1, es + [Entry(key, Bool(buf[pos] != 0))])
    case 3 =>
      if pos + 2 > len then short
      else
        var n := U16(buf[pos], buf[pos + 1]);
        if pos + 2 + n > len then Parsed(false, pos + 2, es + [Entry(key, Zero(tag))])
        else
          var kept := if n > STR_MAX then STR_MAX else n;
          Parsed(true, pos + 2 + kept, es + [Entry(key, Str(CText(buf[pos + 2..pos + 2 + kept])))])
    case _ => Parsed(true, pos, es + [Entry(key, Other(tag))])
  }

  /** One entry at pos. With a full table only key and type are skipped. */
  function ParseEntry(buf: seq<Byte>, pos: nat, es: seq<Entry>, max: nat): Parsed {
    var len := |buf|;
    if pos >= len then Parsed(false, pos, es)
    else
      var n := buf[pos];
      if pos + 1 + n > len || n > KEY_MAX then Parsed(false, pos + 1, es)
      else if pos + 1 + n >= len then Parsed(false, pos + 1 + n, es)
      else
        var key, tag := CText(buf[pos + 1..pos + 1 + n]), buf[pos + 1 + n];
        if |es| >= max then Parsed(true, pos + 2 + n, es)
        else ParseValue(buf, pos + 2 + n, es, key, tag)
  }

  function ParseEntries(buf: seq<Byte>, pos: nat, left: nat, es: seq<Entry>, max: nat): Parsed
    decreases left
  {
    if left == 0 then Parsed(true, pos, es)
    else
      var p := ParseEntry(buf, pos, es, max);
      if p.ok then ParseEntries(buf, p.pos, left - 1, p.es, max) else p
  }

  /** blob_deserialize on top of a table that may already hold entries. */
  function Parse(buf: seq<Byte>, es: seq<Entry>, max: nat): (bool, seq<Entry>) {
    if |buf| < 2 then (false, es)
    else
      var p := ParseEntries(buf, 2, U16(buf[0], buf[1]), es, max);
      (p.ok, p.es)
  }

  // ---- Round trip ----

  /** Parsing a serialised value gives it back. */
  lemma ValueRoundTrip(buf: seq<Byte>, pos: nat, es: seq<Entry>, key: seq<Byte>, v: Value)
    requires ValueOk(v)
    requires pos + |ValueBytes(v)| <= |buf| && buf[pos..pos + |ValueBytes(v)|] == ValueBytes(v)
    ensures ParseValue(buf, pos, es, key, Tag(v)) == Parsed(true, pos + |ValueBytes(v)|, es + [Entry(key, v)])
  {
    hide Le32;
    hide U32;
    match v {
      case Int(i) => Le32RoundTrip(ToWord(i));
      case Float(bits) => Le32RoundTrip(bits);
      case Bool(_) =>
        assert buf[pos] == buf[pos..pos + 1][0];
      case Str(s) =>
        StringRoundTrip(buf, pos, s);
      case Other(_) =>
    }
  }

  lemma StringRoundTrip(buf: seq<Byte>, pos: nat, s: seq<Byte>)
    requires Text(s, STR_MAX) && pos + 2 + |s| <= |buf| && buf[pos..pos + 2 + |s|] == Le16(|s|) + s
    ensures U16(buf[pos], buf[pos + 1]) == |s| && CText(buf[pos + 2..pos + 2 + |s|]) == s
  {
    var part := Le16(|s|) + s;
    assert buf[pos] == part[0] && buf[pos + 1] == part[1] by {
      assert buf[pos..pos + |part|][0] == buf[pos] && buf[pos..pos + |part|][1] == buf[pos + 1];
    }
    Le16RoundTrip(|s|);
    SliceOf(buf, pos, part, 2, |part|);
    assert part[2..] == s;
    CTextOfText(s, STR_MAX);
  }

  lemma EntryRoundTrip(buf: seq<Byte>, pos: nat, es: seq<Entry>, max: nat, e: Entry)
    requires EntryOk(e) && |es| < max
    requires pos + |EntryBytes(e)| <= |buf| && buf[pos..pos + |EntryBytes(e)|] == EntryBytes(e)
    ensures ParseEntry(buf, pos, es, max) == Parsed(true, pos + |EntryBytes(e)|, es + [e])
  {
    hide ParseValue;
    hide ValueBytes;
    hide EntryBytes;
    hide CText;
    EntryFields(buf, pos, e);
    CTextOfText(e.key, KEY_MAX);
    ValueRoundTrip(buf, pos + 2 + |e.key|, es, e.key, e.value);
  }

  /** Where the fields of an entry lie. */
  lemma EntryFields(buf: seq<Byte>, pos: nat, e: Entry)
    requires EntryOk(e)
    requires pos + |EntryBytes(e)| <= |buf| && buf[pos..pos + |EntryBytes(e)|] == EntryBytes(e)
    ensures var n, v := |e.key|, ValueBytes(e.value);
            && |EntryBytes(e)| == 2 + n + |v|
            && buf[pos] == n && buf[pos + 1 + n] == Tag(e.value)
            && buf[pos + 1..pos + 1 + n] == e.key && buf[pos + 2 + n..pos + 2 + n + |v|] == v
  {
    hide ValueBytes;
    var part, n := EntryBytes(e), |e.key|;
    assert part[0] == n && part[1 + n] == Tag(e.value);
    assert buf[pos..pos + |part|][0] == buf[pos] && buf[pos..pos + |part|][1 + n] == buf[pos + 1 + n];
    SliceOf(buf, pos, part, 1, 1 + n);
    assert part[1..1 + n] == e.key;
    SliceOf(buf, pos, part, 2 + n, |part|);
    assert part[2 + n..] == ValueBytes(e.value);
  }

  lemma {:induction false} EntriesRoundTrip(es: seq<Entry>, i: nat, base: seq<Entry>, max: nat)
    requires TableOk(es) && i <= |es| && |base| + |es| <= max
    ensures ParseEntries(Blob(es), |Prefix(es, i)|, |es| - i, base + es[..i], max) == Parsed(true, |Blob(es)|, base + es)
    decreases |es| - i
  {
    hide ParseEntry;
    hide EntryBytes;
    var buf := Blob(es);
    if i == |es| {
      assert es[..i] == es;
    } else {
      PrefixGrows(es, i + 1, |es|);
      var pos, part := |Prefix(es, i)|, EntryBytes(es[i]);
      assert buf[pos..pos + |part|] == part;
      EntryRoundTrip(buf, pos, base + es[..i], max, es[i]);
      assert base + es[..i] + [es[i]] == base + es[..i + 1];
      EntriesRoundTrip(es, i + 1, base, max);
    }
  }

  /** Parsing a serialised table restores every key, type and value in order, behind whatever the
      table already held. */
  lemma TableRoundTrip(es: seq<Entry>, base: seq<Entry>, max: nat)
    requires TableOk(es) && |base| + |es| <= max
    ensures Parse(Blob(es), base, max) == (true, base + es)
  {
    PrefixGrows(es, 0, |es|);
    Le16RoundTrip(|es|);
    EntriesRoundTrip(es, 0, base, max);
    assert base + es[..0] == base;
    assert Blob(es)[0] == Le16(|es|)[0] && Blob(es)[1] == Le16(|es|)[1];
  }

  /** A full table is not changed any more, whatever is left to read. */
  lemma {:induction false} FullStays(buf: seq<Byte>, pos: nat, left: nat, es: seq<Entry>, max: nat)
    requires |es| >= max
    ensures ParseEntries(buf, pos, left, es, max).es == es
    decreases left
  {
    if left > 0 {
      var p := ParseEntry(buf, pos, es, max);
      if p.ok { FullStays(buf, p.pos, left - 1, es, max); }
    }
  }

  /** Of a serialised entry without room only key and type are skipped: the next entry is read from its value. */
  lemma FullSkips(buf: seq<Byte>, pos: nat, es: seq<Entry>, max: nat, e: Entry)
    requires EntryOk(e) && |es| >= max
    requires pos + |EntryBytes(e)| <= |buf| && buf[pos..pos + |EntryBytes(e)|] == EntryBytes(e)
    ensures ParseEntry(buf, pos, es, max) == Parsed(true, pos + |EntryBytes(e)| - |ValueBytes(e.value)|, es)
  {
    hide ParseValue;
    hide ValueBytes;
    hide EntryBytes;
    hide CText;
    EntryFields(buf, pos, e);
  }

  /** How many entries of a table still fit behind `used` others. */
  function Room(es: seq<Entry>, used: nat, max: nat): nat {
    if used >= max then 0 else if used + |es| <= max then |es| else max - used
  }

  lemma {:induction false} EntriesUpToRoom(es: seq<Entry>, i: nat, base: seq<Entry>, max: nat)
    requires TableOk(es) && i <= Room(es, |base|, max)
    ensures ParseEntries(Blob(es), |Prefix(es, i)|, |es| - i, base + es[..i], max).es == base + es[..Room(es, |base|, max)]
    decreases |es| - i
  {
    hide ParseEntry;
    hide EntryBytes;
    var buf := Blob(es);
    if |base| + i >= max {
      FullStays(buf, |Prefix(es, i)|, |es| - i, base + es[..i], max);
    } else if i < |es| {
      PrefixGrows(es, i + 1, |es|);
      var pos, part := |Prefix(es, i)|, EntryBytes(es[i]);
      assert buf[pos..pos + |part|] == part;
      EntryRoundTrip(buf, pos, base + es[..i], max, es[i]);
      assert base + es[..i] + [es[i]] == base + es[..i + 1];
      EntriesUpToRoom(es, i + 1, base, max);
    }
  }

  /** Parsing on top of a table of any size keeps as many of the entries as there is room for. The
      result code is that of the round trip only if all of them fit: from the first entry without
      room on, value bytes are read as entries. */
  lemma TableUpToRoom(es: seq<Entry>, base: seq<Entry>, max: nat)
    requires TableOk(es)
    ensures Parse(Blob(es), base, max).1 == base + es[..Room(es, |base|, max)]
  {
    PrefixGrows(es, 0, |es|);
    Le16RoundTrip(|es|);
    EntriesUpToRoom(es, 0, base, max);
    assert base + es[..0] == base;
    assert Blob(es)[0] == Le16(|es|)[0] && Blob(es)[1] == Le16(|es|)[1];
  }

  /** Whatever the bytes, parsing into a well-formed table leaves a well-formed one that extends it
      and is no longer than the table allows. */
  lemma ParseEntryOk(buf: seq<Byte>, pos: nat, es: seq<Entry>, max: nat)
    requires TableOk(es) && |es| <= max < 0x1_0000
    ensures var p := ParseEntry(buf, pos, es, max); TableOk(p.es) && es <= p.es && |p.es| <= max
  {
    if pos < |buf| && pos + 1 + buf[pos] < |buf| {
      var n := buf[pos];
      CTextIsText(buf[pos + 1..pos + 1 + n]);
      if |es| < max && n <= KEY_MAX {
        ParseValueOk(buf, pos + 2 + n, es, CText(buf[pos + 1..pos + 1 + n]), buf[pos + 1 + n]);
      }
    }
  }

  lemma ParseValueOk(buf: seq<Byte>, pos: nat, es: seq<Entry>, key: seq<Byte>, tag: Byte)
    requires TableOk(es) && |es| + 1 < 0x1_0000 && Text(key, KEY_MAX)
    ensures var p := ParseValue(buf, pos, es, key, tag); |p.es| == |es| + 1 && TableOk(p.es) && es <= p.es
  {
    if tag == 3 && pos + 2 <= |buf| {
      var n := U16(buf[pos], buf[pos + 1]);
      var kept := if n > STR_MAX then STR_MAX else n;
      if pos + 2 + n <= |buf| { CTextIsText(buf[pos + 2..pos + 2 + kept]); }
    }
  }

  lemma {:induction false} ParseEntriesOk(buf: seq<Byte>, pos: nat, left: nat, es: seq<Entry>, max: nat)
    requires TableOk(es) && |es| <= max < 0x1_0000
    ensures var p := ParseEntries(buf, pos, left, es, max); TableOk(p.es) && es <= p.es && |p.es| <= max
    decreases left
  {
    hide ParseEntry;
    if left > 0 {
      ParseEntryOk(buf, pos, es, max);
      var p := ParseEntry(buf, pos, es, max);
      if p.ok { ParseEntriesOk(buf, p.pos, left - 1, p.es, max); }
    }
  }

  // ---- Truncated blobs ----

  /** The value of an entry that could not be read has the type asked for and nothing but zero bytes. */
  lemma ZeroIs(tag: Byte)
    ensures var v := Zero(tag); ValueOk(v) && Tag(v) == tag && forall i :: 0 <= i < |ValueBytes(v)| ==> ValueBytes(v)[i] == 0
  {
  }

  lemma ValueCut(buf: seq<Byte>, pos: nat, es: seq<Entry>, key: seq<Byte>, v: Value)
    requires ValueOk(v) && pos <= |buf| < pos + |ValueBytes(v)| && buf[pos..] == ValueBytes(v)[..|buf| - pos]
    ensures var p := ParseValue(buf, pos, es, key, Tag(v)); !p.ok && p.es == es + [Entry(key, Zero(Tag(v)))]
  {
    hide Le32;
    if v.Str? && pos + 2 <= |buf| {
      var part := ValueBytes(v);
      assert buf[pos..][0] == part[0] && buf[pos..][1] == part[1];
      Le16RoundTrip(|v.s|);
    }
  }

  /** An entry whose bytes are cut off is refused; the table gets an entry with a zero value if key and type
      were complete. */
  lemma EntryCut(buf: seq<Byte>, pos: nat, es: seq<Entry>, max: nat, e: Entry)
    requires EntryOk(e) && |es| < max
    requires pos <= |buf| < pos + |EntryBytes(e)| && buf[pos..] == EntryBytes(e)[..|buf| - pos]
    ensures var p := ParseEntry(buf, pos, es, max);
            !p.ok && p.es == if |buf| < pos + 2 + |e.key| then es else es + [Entry(e.key, Zero(Tag(e.value)))]
  {
    hide ParseValue;
    hide ValueBytes;
    hide CText;
    var n, part := |e.key|, EntryBytes(e);
    if pos < |buf| {
      assert buf[pos] == buf[pos..][0] == part[0];
      if pos + 2 + n <= |buf| {
        assert buf[pos + 1 + n] == buf[pos..][1 + n] == part[1 + n];
        var rest := buf[pos..];
        forall x | 0 <= x < |rest| ensures buf[pos + x] == part[x] { assert rest[x] == part[x]; }
        assert buf[pos + 1..pos + 1 + n] == part[1..1 + n] == e.key;
        assert part[2 + n..] == ValueBytes(e.value);
        assert buf[pos + 2 + n..] == ValueBytes(e.value)[..|rest| - 2 - n];
        CTextOfText(e.key, KEY_MAX);
        ValueCut(buf, pos + 2 + n, es, e.key, e.value);
      }
    }
  }

  /** The table a blob cut to n bytes leaves, when j entries are complete in it. */
  ghost function CutTable(es: seq<Entry>, base: seq<Entry>, n: nat, j: nat): seq<Entry>
    requires TableOk(es) && j < |es|
  {
    base + es[..j] + if n < |Prefix(es, j)| + 2 + |es[j].key| then [] else [Entry(es[j].key, Zero(Tag(es[j].value)))]
  }

  lemma {:induction false} EntriesCut(es: seq<Entry>, i: nat, base: seq<Entry>, max: nat, n: nat) returns (j: nat)
    requires TableOk(es) && i <= |es| && |base| + |es| <= max && |Prefix(es, i)| <= n < |Blob(es)|
    ensures i <= j < |es| && |Prefix(es, j)| <= n < |Prefix(es, j + 1)|
    ensures var p := ParseEntries(Blob(es)[..n], |Prefix(es, i)|, |es| - i, base + es[..i], max);
            !p.ok && p.es == CutTable(es, base, n, j)
    decreases |es| - i
  {
    hide ParseEntry;
    hide EntryBytes;
    var all, buf := Blob(es), Blob(es)[..n];
    PrefixGrows(es, i + 1, |es|);
    var pos, part := |Prefix(es, i)|, EntryBytes(es[i]);
    assert EntryOk(es[i]);
    hide EntryOk;
    assert all[pos..pos + |part|] == part;
    if n < pos + |part| {
      j := i;
      assert buf[pos..] == part[..n - pos];
      EntryCut(buf, pos, base + es[..i], max, es[i]);
      assert base + es[..i] + [] == base + es[..i];
    } else {
      assert buf[pos..pos + |part|] == part;
      EntryRoundTrip(buf, pos, base + es[..i], max, es[i]);
      assert base + es[..i] + [es[i]] == base + es[..i + 1];
      j := EntriesCut(es, i + 1, base, max, n);
    }
  }

  /** A serialised table that is cut off anywhere is refused. What was parsed before stays in the table: the
      complete entries, and the one that was cut with a zero value if its key and type were complete. */
  lemma CutIsRefused(es: seq<Entry>, base: seq<Entry>, max: nat, n: nat) returns (j: nat)
    requires TableOk(es) && |base| + |es| <= max && n < |Blob(es)|
    ensures var (ok, table) := Parse(Blob(es)[..n], base, max);
            && !ok
            && if n < 2 then table == base
               else j < |es| && |Prefix(es, j)| <= n < |Prefix(es, j + 1)| && table == CutTable(es, base, n, j)
  {
    hide EntryBytes;
    hide CutTable;
    j := 0;
    if n >= 2 {
      PrefixGrows(es, 0, |es|);
      Le16RoundTrip(|es|);
      var buf := Blob(es)[..n];
      assert buf[0] == Le16(|es|)[0] && buf[1] == Le16(|es|)[1];
      j := EntriesCut(es, 0, base, max, n);
      assert base + es[..0] == base;
    }
  }

  // ---- The value reserve ----

  /** The serialiser's test before entry i. */
  ghost predicate RoomFor(es: seq<Entry>, i: nat, size: nat)
    requires TableOk(es) && i < |es|
  {
    |Prefix(es, i)| + 1 + |es[i].key| + 1 + RESERVE <= size
  }

  /** The serialiser reports success. */
  ghost predicate Accepts(es: seq<Entry>, size: nat)
    requires TableOk(es)
  {
    size >= 2 && forall i :: 0 <= i < |es| ==> RoomFor(es, i, size)
  }

  /** Each test is stricter than the ones before it, so the last entry decides: the blob without its last value,
      and the reserve, must fit. */
  lemma AcceptsIff(es: seq<Entry>, size: nat)
    requires TableOk(es)
    ensures Accepts(es, size) <==>
            size >= 2 && (es == [] || |Blob(es)| - |ValueBytes(es[|es| - 1].value)| + RESERVE <= size)
  {
    hide Prefix;
    hide ValueBytes;
    if es != [] {
      var n := |es| - 1;
      LastValue(es, n);
      assert RoomFor(es, n, size) <==> |Blob(es)| - |ValueBytes(es[n].value)| + RESERVE <= size;
      if RoomFor(es, n, size) {
        forall i | 0 <= i < |es| ensures RoomFor(es, i, size) { TestsGrow(es, i, n, size); }
      }
    }
  }

  lemma LastValue(es: seq<Entry>, n: nat)
    requires TableOk(es) && n < |es|
    ensures |Prefix(es, n + 1)| == |Prefix(es, n)| + 2 + |es[n].key| + |ValueBytes(es[n].value)|
  {
  }

  lemma {:induction false} TestsGrow(es: seq<Entry>, i: nat, j: nat, size: nat)
    requires TableOk(es) && i <= j < |es| && RoomFor(es, j, size)
    ensures RoomFor(es, i, size)
    decreases j - i
  {
    hide Prefix;
    hide ValueBytes;
    if i < j {
      LastValue(es, j - 1);
      TestsGrow(es, i, j - 1, size);
    }
  }

  /** It writes behind the buffer: entry i passes its test, as all before it did, and does not fit. */
  ghost predicate OverrunsAt(es: seq<Entry>, i: nat, size: nat)
    requires TableOk(es)
  {
    i < |es| && (forall j :: 0 <= j <= i ==> RoomFor(es, j, size)) && |Prefix(es, i + 1)| > size
  }

  ghost predicate Overruns(es: seq<Entry>, size: nat)
    requires TableOk(es)
  {
    exists i :: 0 <= i < |es| && OverrunsAt(es, i, size)
  }

  ghost predicate SafeFor(n: nat, size: nat) {
    forall es | TableOk(es) && |es| == n :: !Overruns(es, size)
  }

  /** A table entry of length 4 + k + m. */
  function Sample(k: nat, m: nat): Entry {
    Entry(seq(k, _ => 97), Str(seq(m, _ => 97)))
  }

  /** n entries, of which the first `full` are as long as possible except that the last of those is
      shortened by `cut`, followed by one with a key of length k. */
  function Crowd(n: nat, full: nat, cut: nat, k: nat): seq<Entry>
    requires cut <= STR_MAX
  {
    seq(n, i => if i < full then Sample(KEY_MAX, if i == full - 1 then STR_MAX - cut else STR_MAX) else Sample(k, STR_MAX))
  }

  lemma SampleOk(k: nat, m: nat)
    requires k <= KEY_MAX && m <= STR_MAX
    ensures EntryOk(Sample(k, m)) && |EntryBytes(Sample(k, m))| == 4 + k + m && |Sample(k, m).key| == k
  {
    EntryLength(Sample(k, m));
  }

  lemma CrowdOk(n: nat, full: nat, cut: nat, k: nat)
    requires full <= n < 0x1_0000 && cut <= STR_MAX && k <= KEY_MAX
    ensures TableOk(Crowd(n, full, cut, k))
  {
    hide EntryOk;
    hide Sample;
    SampleOk(KEY_MAX, STR_MAX);
    SampleOk(KEY_MAX, STR_MAX - cut);
    SampleOk(k, STR_MAX);
  }

  lemma {:induction false} CrowdLength(n: nat, full: nat, cut: nat, k: nat, i: nat)
    requires full <= n < 0x1_0000 && cut <= STR_MAX && k <= KEY_MAX && i <= full
    ensures TableOk(Crowd(n, full, cut, k))
    ensures |Prefix(Crowd(n, full, cut, k), i)| == 2 + ENTRY_MAX * i - if 0 < i == full then cut else 0
  {
    hide EntryOk;
    hide Sample;
    hide EntryBytes;
    CrowdOk(n, full, cut, k);
    if i > 0 {
      CrowdLength(n, full, cut, k, i - 1);
      SampleOk(KEY_MAX, if i == full then STR_MAX - cut else STR_MAX);
    }
  }

  /** The next entry passes the test and does not fit. */
  lemma CrowdOverruns(n: nat, full: nat, cut: nat, k: nat, size: nat)
    requires full < n < 0x1_0000 && cut <= STR_MAX && k <= KEY_MAX && (full == 0 ==> cut == 0)
    requires 2 + ENTRY_MAX * full - cut + 2 + k + RESERVE <= size < 2 + ENTRY_MAX * full - cut + 4 + k + STR_MAX
    ensures !SafeFor(n, size)
  {
    hide EntryOk;
    hide Sample;
    hide EntryBytes;
    var es := Crowd(n, full, cut, k);
    CrowdLength(n, full, cut, k, full);
    SampleOk(k, STR_MAX);
    forall j | 0 <= j <= full ensures RoomFor(es, j, size) {
      CrowdLength(n, full, cut, k, j);
      if j < full { SampleOk(KEY_MAX, if j == full - 1 then STR_MAX - cut else STR_MAX); }
    }
    assert OverrunsAt(es, full, size);
  }

  /** Exactly when the reserve of 8 bytes cannot be overrun by a table of n entries: the buffer holds
      n entries of maximal length, or is too small to pass a first test. */
  lemma ReserveSafeIff(n: nat, size: nat)
    requires n < 0x1_0000
    ensures SafeFor(n, size) <==> n == 0 || size < 12 || 2 + ENTRY_MAX * n <= size
  {
    if n == 0 || size < 12 || 2 + ENTRY_MAX * n <= size {
      forall es | TableOk(es) && |es| == n ensures !Overruns(es, size) {
        NoOverrun(es, size);
      }
    } else {
      var full, rest := (size - 2) / ENTRY_MAX, (size - 2) % ENTRY_MAX;
      if rest < 10 {
        CrowdOverruns(n, full, 10, 0, size);
      } else {
        CrowdOverruns(n, full, 0, if rest - 10 < KEY_MAX then rest - 10 else KEY_MAX, size);
      }
    }
  }

  lemma NoOverrun(es: seq<Entry>, size: nat)
    requires TableOk(es) && (|es| == 0 || size < 12 || 2 + ENTRY_MAX * |es| <= size)
    ensures !Overruns(es, size)
  {
    forall i | 0 <= i < |es| ensures !OverrunsAt(es, i, size) {
      PrefixLength(es, i + 1);
      if size < 12 {
        PrefixLength(es, 0);
        assert !RoomFor(es, 0, size);
      }
    }
  }

  /** In the 4092 bytes behind the checksum of a slot that is 41 entries. */
  lemma SlotHolds41(n: nat)
    requires n < 0x1_0000
    ensures SafeFor(n, 4092) <==> n <= 41
  {
    ReserveSafeIff(n, 4092);
  }
}
