/** The kernel's stream and message buffers: a byte ring with head and tail indices and copies
    split at its end; a message buffer puts the length in front of every message. */
module MessageBuffer {
  import opened Bits
  import opened LittleEndian

  const LENGTH_BYTES: nat := 4   // configMESSAGE_BUFFER_LENGTH_TYPE is a 32-bit size_t

  // ---- A ring of cells ----

  function Adv(at: nat, n: nat, len: nat): (r: nat)
    requires at < len && n <= len
    ensures r < len
  {
    if at + n >= len then at + n - len else at + n
  }

  /** The n cells from `at` on. */
  function Window(s: seq<Byte>, at: nat, n: nat): (r: seq<Byte>)
    requires at < |s| && n <= |s|
    ensures |r| == n
  {
    if at + n <= |s| then s[at..at + n] else s[at..] + s[..at + n - |s|]
  }

  /** The ring after writing d from `at` on. */
  function Written(s: seq<Byte>, at: nat, d: seq<Byte>): (r: seq<Byte>)
    requires at < |s| && |d| <= |s|
    ensures |r| == |s|
  {
    var first := if |s| - at < |d| then |s| - at else |d|;
    if first == |d| then s[..at] + d + s[at + |d|..]
    else d[first..] + s[|d| - first..at] + d[..first]
  }

  /** The ring after copying d in place. */
  function Copied(s: seq<Byte>, at: nat, d: seq<Byte>): seq<Byte>
    requires at + |d| <= |s|
  {
    s[..at] + d + s[at + |d|..]
  }

  /** One copy, or two when the end of the ring comes in between. */
  lemma CopiesWrite(s: seq<Byte>, at: nat, d: seq<Byte>)
    requires at < |s| && |d| <= |s|
    ensures var first := if |s| - at < |d| then |s| - at else |d|;
            var once := Copied(s, at, d[..first]);
            Written(s, at, d) == if |d| > first then Copied(once, 0, d[first..]) else once
  {
    if |s| - at < |d| {
      var first := |s| - at;
      CopyToEnd(s, at, d[..first]);
      CopyToStart(s[..at], d[..first], d[first..]);
    } else {
      assert d[..|d|] == d;
    }
  }

  lemma CopyToEnd(s: seq<Byte>, at: nat, d: seq<Byte>)
    requires at + |d| == |s|
    ensures Copied(s, at, d) == s[..at] + d
  {
    assert s[at + |d|..] == [];
  }

  lemma CopyToStart(a: seq<Byte>, b: seq<Byte>, d: seq<Byte>)
    requires |d| <= |a|
    ensures Copied(a + b, 0, d) == d + a[|d|..] + b
  {
    TailOfConcat(a, b, |d|);
  }

  lemma TailOfConcat(a: seq<Byte>, b: seq<Byte>, k: nat)
    requires k <= |a|
    ensures (a + b)[k..] == a[k..] + b
  {
  }

  lemma WindowAt(s: seq<Byte>, at: nat, n: nat, i: nat)
    requires at < |s| && n <= |s| && i < n
    ensures Window(s, at, n)[i] == s[Adv(at, i, |s|)]
  {
  }

  /** A cell holds the new byte if it lies in the written part, else its old content. */
  lemma WrittenAt(s: seq<Byte>, at: nat, d: seq<Byte>, i: nat)
    requires at < |s| && |d| <= |s| && i < |s|
    ensures Written(s, at, d)[Adv(at, i, |s|)] == if i < |d| then d[i] else s[Adv(at, i, |s|)]
  {
  }

  lemma WrittenIsRead(s: seq<Byte>, at: nat, d: seq<Byte>)
    requires at < |s| && |d| <= |s|
    ensures Window(Written(s, at, d), at, |d|) == d
  {
    hide Written;
    hide Window;
    forall i | 0 <= i < |d|
      ensures Window(Written(s, at, d), at, |d|)[i] == d[i]
    {
      WindowAt(Written(s, at, d), at, |d|, i);
      WrittenAt(s, at, d, i);
    }
  }

  /** A write behind a window that does not come round to it leaves it alone. */
  lemma WriteBehind(s: seq<Byte>, from: nat, n: nat, d: seq<Byte>)
    requires from < |s| && n + |d| <= |s|
    ensures Window(Written(s, Adv(from, n, |s|), d), from, n) == Window(s, from, n)
  {
    hide Written;
    hide Window;
    var s' := Written(s, Adv(from, n, |s|), d);
    forall i | 0 <= i < n
      ensures Window(s', from, n)[i] == Window(s, from, n)[i]
    {
      WindowAt(s', from, n, i);
      WindowAt(s, from, n, i);
      WrittenAt(s, Adv(from, n, |s|), d, |s| - n + i);
    }
  }

  lemma WindowSplit(s: seq<Byte>, at: nat, n: nat, m: nat)
    requires at < |s| && n + m <= |s|
    ensures Window(s, at, n + m) == Window(s, at, n) + Window(s, Adv(at, n, |s|), m)
  {
    hide Window;
    forall i | 0 <= i < n + m
      ensures Window(s, at, n + m)[i] == (Window(s, at, n) + Window(s, Adv(at, n, |s|), m))[i]
    {
      WindowAt(s, at, n + m, i);
      if i < n { WindowAt(s, at, n, i); } else { WindowAt(s, Adv(at, n, |s|), m, i - n); }
    }
  }

  /** Bytes held when they start at `tail` and end at `head`. */
  function Held(head: nat, tail: nat, len: nat): (n: nat)
    requires head < len && tail < len
    ensures n < len && Adv(tail, n, len) == head
  {
    if head >= tail then head - tail else len + head - tail
  }

  lemma HeldAfter(head: nat, tail: nat, len: nat, n: nat)
    requires head < len && tail < len
    ensures Held(head, tail, len) + n < len ==> Held(Adv(head, n, len), tail, len) == Held(head, tail, len) + n
    ensures n <= Held(head, tail, len) ==> Held(head, Adv(tail, n, len), len) == Held(head, tail, len) - n
  {
  }

  // ---- Sending and receiving on the bytes held ----

  /** What xStreamBufferSend without waiting makes of the bytes held; cap is xLength - 1. */
  function SendOn(held: seq<Byte>, cap: nat, message: bool, data: seq<Byte>): (nat, seq<Byte>)
    requires |held| <= cap
  {
    if message then
      if |data| > 0 && |held| + LENGTH_BYTES + |data| <= cap then (|data|, held + Le32(|data|) + data) else (0, held)
    else
      var n := if |data| < cap - |held| then |data| else cap - |held|;
      (n, held + data[..n])
  }

  /** What xStreamBufferReceive without waiting delivers and leaves. */
  function ReceiveOn(held: seq<Byte>, message: bool, max: nat): (seq<Byte>, seq<Byte>)
  {
    if message then
      if |held| <= LENGTH_BYTES then ([], held)
      else
        var n := U32(held[..4]);
        if n > max then ([], held)
        else
          var count := if n < |held| - 4 then n else |held| - 4;
          if count == 0 then ([], held) else (held[4..4 + count], held[4 + count..])
    else
      var count := if max < |held| then max else |held|;
      (held[..count], held[count..])
  }

  class StreamBuffer {
    const buf: array<Byte>
    const message: bool
    var head: nat
    var tail: nat

    ghost predicate Valid()
      reads this
    {
      buf.Length > 0 && head < buf.Length && tail < buf.Length
    }

    ghost function Bytes(): (r: seq<Byte>)
      requires Valid()
      reads this, buf
      ensures |r| < buf.Length
    {
      Window(buf[..], tail, Held(head, tail, buf.Length))
    }

    /** The buffer is created one byte larger than asked for. */
    constructor (size: nat, asMessages: bool)
      ensures Valid() && Bytes() == [] && message == asMessages && buf.Length == size + 1 && fresh(buf)
    {
      buf := new Byte[size + 1];
      message := asMessages;
      head, tail := 0, 0;
    }

    method BytesInBuffer() returns (n: nat)
      requires Valid()
      ensures n == |Bytes()|
    {
      var count := buf.Length + head;
      count := count - tail;
      if count >= buf.Length {
        count := count - buf.Length;
      }
      n := count;
    }

    /** Bytes held and space reported always add up to xLength - 1. */
    method SpacesAvailable() returns (n: nat)
      requires Valid()
      ensures n + |Bytes()| == buf.Length - 1
    {
      var space := buf.Length + tail;
      space := space - head;
      space := space - 1;
      if space >= buf.Length {
        space := space - buf.Length;
      }
      n := space;
    }

    /** prvWriteBytesToBuffer: two copies when the end of the ring comes in between. */
    method WriteBytes(data: seq<Byte>, at: nat) returns (next: nat)
      requires Valid() && at < buf.Length && |data| <= buf.Length
      modifies buf
      ensures buf[..] == Written(old(buf[..]), at, data) && next == Adv(at, |data|, buf.Length)
    {
      hide Written;
      var first := if buf.Length - at < |data| then buf.Length - at else |data|;
      CopiesWrite(buf[..], at, data);
      CopyIn(at, data[..first]);
      if |data| > first {
        CopyIn(0, data[first..]);
      }
      next := at + |data|;
      if next >= buf.Length {
        next := next - buf.Length;
      }
    }

    /** memcpy into the ring. */
    method CopyIn(at: nat, d: seq<Byte>)
      requires at + |d| <= buf.Length
      modifies buf
      ensures buf[..] == Copied(old(buf[..]), at, d)
    {
      ghost var was := buf[..];
      for i := 0 to |d|
        invariant buf[..] == was[..at] + d[..i] + was[at + i..]
      {
        buf[at + i] := d[i];
        assert d[..i + 1] == d[..i] + [d[i]];
      }
      assert d[..|d|] == d;
    }

    /** prvReadBytesFromBuffer. */
    method ReadBytes(n: nat, at: nat) returns (data: seq<Byte>, next: nat)
      requires Valid() && at < buf.Length && n <= buf.Length
      ensures data == Window(buf[..], at, n) && next == Adv(at, n, buf.Length)
    {
      var first := if buf.Length - at < n then buf.Length - at else n;
      data := buf[at..at + first];
      if n > first {
        data := data + buf[..n - first];
      }
      next := at + n;
      if next >= buf.Length {
        next := next - buf.Length;
      }
    }

    /** xStreamBufferSend with a zero timeout. */
    method Send(data: seq<Byte>) returns (sent: nat)
      requires Valid() && |data| < 0x1_0000_0000
      modifies this, buf
      ensures Valid()
      ensures (sent, Bytes()) == SendOn(old(Bytes()), buf.Length - 1, message, data)
    {
      hide Window;
      ghost var held := Bytes();
      var space := SpacesAvailable();
      if message {
        sent := WriteMessage(data, space);
      } else {
        sent := if |data| < space then |data| else space;
        if sent != 0 {
          Append(data[..sent], head, 0);
        }
        assert Bytes() == held + data[..sent];
      }
    }

    /** The message part of prvWriteMessageToBuffer. Without room nothing is written; the length of an
        empty message is written but the head does not move over it. */
    method WriteMessage(data: seq<Byte>, space: nat) returns (sent: nat)
      requires Valid() && message && |data| < 0x1_0000_0000 && space + |Bytes()| == buf.Length - 1
      modifies this, buf
      ensures Valid()
      ensures (sent, Bytes()) == SendOn(old(Bytes()), buf.Length - 1, true, data)
    {
      hide Window;
      hide Written;
      hide Le32;
      if space < |data| + LENGTH_BYTES {
        return 0;
      }
      ghost var was, held := buf[..], |Bytes()|;
      Appended(was, tail, held, Le32(|data|));
      var next := WriteBytes(Le32(|data|), head);
      if data != [] {
        Append(data, next, LENGTH_BYTES);
      }
      sent := |data|;
    }

    /** Write `data` at `next`, `gap` cells behind the head, and move the head over both. */
    method Append(data: seq<Byte>, next: nat, ghost gap: nat)
      requires Valid() && |Bytes()| + gap + |data| < buf.Length && next == Adv(head, gap, buf.Length)
      modifies this`head, buf
      ensures Valid()
      ensures Bytes() == old(Window(buf[..], tail, |Bytes()| + gap)) + data
    {
      hide Window;
      hide Written;
      ghost var held := |Bytes()|;
      HeldAfter(head, tail, buf.Length, gap);
      HeldAfter(head, tail, buf.Length, gap + |data|);
      Appended(buf[..], tail, held + gap, data);
      head := WriteBytes(data, next);
    }

    /** xStreamBufferReceive with a zero timeout. */
    method Receive(max: nat) returns (data: seq<Byte>)
      requires Valid()
      modifies this`tail
      ensures Valid()
      ensures (data, Bytes()) == ReceiveOn(old(Bytes()), message, max)
    {
      hide Window;
      var available := BytesInBuffer();
      data := [];
      if available > (if message then LENGTH_BYTES else 0) {
        data := ReadMessage(max, available);
      }
    }

    /** prvReadMessageFromBuffer. */
    method ReadMessage(max: nat, available: nat) returns (data: seq<Byte>)
      requires Valid() && available == |Bytes()| && available > if message then LENGTH_BYTES else 0
      modifies this`tail
      ensures Valid()
      ensures (data, Bytes()) == ReceiveOn(old(Bytes()), message, max)
    {
      hide Window;
      hide U32;
      ghost var held := Bytes();
      var next, rest, wanted := tail, available, max;
      ghost var skip := 0;
      if message {
        var field;
        field, next := ReadBytes(LENGTH_BYTES, tail);
        WindowSplit(buf[..], tail, LENGTH_BYTES, available - LENGTH_BYTES);
        assert field == held[..4];
        wanted := U32(field);
        rest := available - LENGTH_BYTES;
        skip := LENGTH_BYTES;
        if wanted > max {
          wanted := 0;
        }
      }
      var count := if wanted < rest then wanted else rest;
      data := [];
      if count != 0 {
        Removed(buf[..], tail, available, skip, count);
        HeldAfter(head, tail, buf.Length, skip + count);
        data, tail := ReadBytes(count, next);
      }
    }

    /** xStreamBufferNextMessageLengthBytes. */
    method NextMessageLength() returns (n: nat)
      requires Valid()
      ensures n == if message && |Bytes()| > LENGTH_BYTES then U32(Bytes()[..4]) else 0
    {
      hide Window;
      n := 0;
      if message {
        var available := BytesInBuffer();
        if available > LENGTH_BYTES {
          var field, _ := ReadBytes(LENGTH_BYTES, tail);
          WindowSplit(buf[..], tail, LENGTH_BYTES, available - LENGTH_BYTES);
          assert field == Bytes()[..4];
          n := U32(field);
        }
      }
    }
  }

  /** Moving the tail over `skip` bytes and the `count` behind them leaves the rest. */
  lemma Removed(s: seq<Byte>, tail: nat, held: nat, skip: nat, count: nat)
    requires tail < |s| && skip + count <= held < |s|
    ensures Adv(Adv(tail, skip, |s|), count, |s|) == Adv(tail, skip + count, |s|)
    ensures Window(s, Adv(tail, skip, |s|), count) == Window(s, tail, held)[skip..skip + count]
    ensures Window(s, Adv(tail, skip + count, |s|), held - skip - count) == Window(s, tail, held)[skip + count..]
  {
    hide Window;
    WindowSplit(s, tail, skip, count);
    WindowSplit(s, tail, skip + count, held - skip - count);
  }

  /** Writing behind the bytes held appends to them. */
  lemma Appended(s: seq<Byte>, tail: nat, held: nat, d: seq<Byte>)
    requires tail < |s| && held + |d| <= |s|
    ensures Window(Written(s, Adv(tail, held, |s|), d), tail, held + |d|) == Window(s, tail, held) + d
    ensures Window(Written(s, Adv(tail, held, |s|), d), tail, held) == Window(s, tail, held)
  {
    hide Window;
    hide Written;
    var s' := Written(s, Adv(tail, held, |s|), d);
    WindowSplit(s', tail, held, |d|);
    WriteBehind(s, tail, held, d);
    WrittenIsRead(s, Adv(tail, held, |s|), d);
  }

  // ---- Space while a receiver is running ----

  /** Indices modulo the length give the distance of the counts they stand for. */
  lemma HeldIsDistance(written: nat, released: nat, len: nat)
    requires len > 0 && released <= written < released + len
    ensures Held(written % len, released % len, len) == written - released
  {
    var q, r, d := released / len, released % len, written - released;
    if r + d < len {
      DivModUnique(written, len, q, r + d);
    } else {
      assert written == len * (q + 1) + (r + d - len);
      DivModUnique(written, len, q + 1, r + d - len);
    }
  }

  /** xStreamBufferSpacesAvailable called by the sender while a receiver releases bytes: released(i) is how
      many bytes it has released in all at the i-th read of xTail. The loop ends, and what it reports is
      exactly the space there was at its last read, so never more than there is afterwards. */
  method SpacesWhileReceiving(len: nat, written: nat, released: nat -> nat) returns (space: nat, last: nat)
    requires len > 0 && written < released(0) + len
    requires forall i: nat, j: nat :: i <= j ==> released(i) <= released(j)
    requires forall i: nat :: released(i) <= written
    ensures space + (written - released(last)) == len - 1
    ensures forall i: nat :: last <= i ==> space + (written - released(i)) <= len - 1
  {
    var head := written % len;
    last := 0;
    var sum := 0;
    while true
      invariant forall i: nat :: last <= i ==> released(0) <= released(i)
      decreases written - released(last)
    {
      var original := released(last) % len;
      sum := len + released(last + 1) % len;
      sum := sum - head;
      var again := released(last + 2) % len;
      assert released(last) <= released(last + 1) <= released(last + 2);
      if original == again {
        HeldIsDistance(released(last + 2), released(last), len);
        last := last + 2;
        break;
      }
      last := last + 2;
    }
    HeldIsDistance(written, released(last), len);
    sum := sum - 1;
    if sum >= len {
      sum := sum - len;
    }
    space := sum;
  }

  // ---- Whole messages ----

  /** The bytes of a sequence of messages, oldest first. */
  function Framed(msgs: seq<seq<Byte>>): seq<Byte> {
    if msgs == [] then [] else Le32(|msgs[0]|) + msgs[0] + Framed(msgs[1..])
  }

  ghost predicate Sendable(msgs: seq<seq<Byte>>) {
    forall i :: 0 <= i < |msgs| ==> 0 < |msgs[i]| < 0x1_0000_0000
  }

  lemma {:induction false} FramedAppend(msgs: seq<seq<Byte>>, m: seq<Byte>)
    ensures Framed(msgs + [m]) == Framed(msgs) + Le32(|m|) + m
  {
    hide Le32;
    if msgs == [] {
      assert msgs + [m] == [m] && [m][1..] == [];
    } else {
      assert (msgs + [m])[1..] == msgs[1..] + [m];
      FramedAppend(msgs[1..], m);
    }
  }

  /** A message is accepted exactly when it is not empty and fits with its length in front; then all of it is
      added, otherwise nothing. */
  lemma SendAddsWhole(msgs: seq<seq<Byte>>, cap: nat, data: seq<Byte>)
    requires |Framed(msgs)| <= cap
    ensures var (sent, held) := SendOn(Framed(msgs), cap, true, data);
            && (sent > 0 <==> |data| > 0 && |Framed(msgs)| + 4 + |data| <= cap)
            && if sent > 0 then sent == |data| && held == Framed(msgs + [data]) else held == Framed(msgs)
  {
    hide Framed;
    FramedAppend(msgs, data);
  }

  /** The first message can be told from the rest. */
  lemma FramedSplit(msgs: seq<seq<Byte>>)
    requires Sendable(msgs) && msgs != []
    ensures var held, m, rest := Framed(msgs), msgs[0], Framed(msgs[1..]);
            && |held| == 4 + |m| + |rest| && held[..4] == Le32(|m|) && U32(held[..4]) == |m|
            && held[4..4 + |m|] == m && held[4 + |m|..] == rest
  {
    hide Le32;
    hide U32;
    var held, m, rest := Framed(msgs), msgs[0], Framed(msgs[1..]);
    Le32RoundTrip(|m|);
    assert held == Le32(|m|) + m + rest;
    assert held[..4] == Le32(|m|);
  }

  /** A receive delivers exactly the oldest message, or changes nothing when there is none or the
      buffer offered is too small for it. */
  lemma ReceiveTakesWhole(msgs: seq<seq<Byte>>, max: nat)
    requires Sendable(msgs)
    ensures ReceiveOn(Framed(msgs), true, max) ==
            if msgs != [] && |msgs[0]| <= max then (msgs[0], Framed(msgs[1..])) else ([], Framed(msgs))
  {
    hide Le32;
    hide U32;
    if msgs == [] {
      assert Framed(msgs) == [];
    } else {
      FramedSplit(msgs);
      hide Framed;
    }
  }

  /** The reported length is that of the oldest message, and 0 exactly when there is none. */
  lemma NextLengthIsOldest(msgs: seq<seq<Byte>>)
    requires Sendable(msgs)
    ensures msgs == [] ==> Framed(msgs) == []
    ensures msgs != [] ==> |Framed(msgs)| > LENGTH_BYTES && U32(Framed(msgs)[..4]) == |msgs[0]| > 0
  {
    if msgs != [] { FramedSplit(msgs); }
  }

  datatype Op = SendOp(data: seq<Byte>) | ReceiveOp(max: nat)

  datatype Trace = Trace(held: seq<Byte>, accepted: seq<seq<Byte>>, received: seq<seq<Byte>>)

  function Step(t: Trace, cap: nat, op: Op): Trace
    requires |t.held| <= cap
  {
    match op
    case SendOp(data) =>
      var (sent, held) := SendOn(t.held, cap, true, data);
      t.(held := held, accepted := if sent > 0 then t.accepted + [data] else t.accepted)
    case ReceiveOp(max) =>
      var (data, held) := ReceiveOn(t.held, true, max);
      t.(held := held, received := if |data| > 0 then t.received + [data] else t.received)
  }

  ghost predicate Queued(t: Trace, cap: nat, msgs: seq<seq<Byte>>) {
    t.held == Framed(msgs) && |t.held| <= cap && Sendable(msgs) && t.accepted == t.received + msgs
  }

  /** The FIFO behind the trace after each operation. */
  lemma StepKeepsQueue(t: Trace, cap: nat, op: Op, msgs: seq<seq<Byte>>) returns (after: seq<seq<Byte>>)
    requires Queued(t, cap, msgs) && (op.SendOp? ==> |op.data| < 0x1_0000_0000)
    ensures Queued(Step(t, cap, op), cap, after)
  {
    hide Framed;
    hide Le32;
    match op {
      case SendOp(data) =>
        SendAddsWhole(msgs, cap, data);
        after := if SendOn(t.held, cap, true, data).0 > 0 then msgs + [data] else msgs;
      case ReceiveOp(max) =>
        ReceiveTakesWhole(msgs, max);
        if msgs != [] && |msgs[0]| <= max {
          after := msgs[1..];
          assert msgs == [msgs[0]] + after;
          assert t.received + msgs == t.received + [msgs[0]] + after;
        } else {
          after := msgs;
        }
    }
  }

  ghost function Run(cap: nat, ops: seq<Op>): Trace {
    if ops == [] then Trace([], [], [])
    else
      var before := Run(cap, ops[..|ops| - 1]);
      if |before.held| <= cap then Step(before, cap, ops[|ops| - 1]) else before
  }

  /** Over any run the messages received are, whole and in order, the first of those accepted, and
      the bytes held are exactly the frames of the rest. */
  lemma {:induction false} RunsAreFifo(cap: nat, ops: seq<Op>) returns (msgs: seq<seq<Byte>>)
    requires forall i :: 0 <= i < |ops| && ops[i].SendOp? ==> |ops[i].data| < 0x1_0000_0000
    ensures var t := Run(cap, ops);
            t.accepted == t.received + msgs && t.held == Framed(msgs) && |t.held| <= cap && Sendable(msgs)
  {
    if ops == [] {
      msgs := [];
    } else {
      var before := RunsAreFifo(cap, ops[..|ops| - 1]);
      msgs := StepKeepsQueue(Run(cap, ops[..|ops| - 1]), cap, ops[|ops| - 1], before);
    }
  }

  // ---- Stream mode ----

  datatype Stream = Stream(held: seq<Byte>, accepted: seq<Byte>, received: seq<Byte>)

  function StreamStep(t: Stream, cap: nat, op: Op): (r: Stream)
    requires |t.held| <= cap
  {
    match op
    case SendOp(data) =>
      var (sent, held) := SendOn(t.held, cap, false, data);
      t.(held := held, accepted := t.accepted + if sent <= |data| then data[..sent] else data)
    case ReceiveOp(max) =>
      var (data, held) := ReceiveOn(t.held, false, max);
      t.(held := held, received := t.received + data)
  }

  /** A send takes as many bytes as fit, a receive gives as many as are wanted and there. */
  lemma StreamTakesAll(held: seq<Byte>, cap: nat, data: seq<Byte>, max: nat)
    requires |held| <= cap
    ensures var (sent, _) := SendOn(held, cap, false, data); sent == |data| || (sent < |data| && |held| + sent == cap)
    ensures var (got, _) := ReceiveOn(held, false, max); |got| == max || (|got| < max && |got| == |held|)
  {
  }

  ghost function StreamRun(cap: nat, ops: seq<Op>): Stream {
    if ops == [] then Stream([], [], [])
    else
      var before := StreamRun(cap, ops[..|ops| - 1]);
      if |before.held| <= cap then StreamStep(before, cap, ops[|ops| - 1]) else before
  }

  /** Over any run the bytes received and those held are, in order, exactly the bytes accepted, and no more
      are held than fit. */
  lemma {:induction false} StreamsAreFifo(cap: nat, ops: seq<Op>)
    ensures var t := StreamRun(cap, ops); t.accepted == t.received + t.held && |t.held| <= cap
  {
    if ops != [] {
      StreamsAreFifo(cap, ops[..|ops| - 1]);
      StreamKeepsFifo(StreamRun(cap, ops[..|ops| - 1]), cap, ops[|ops| - 1]);
    }
  }

  lemma StreamKeepsFifo(t: Stream, cap: nat, op: Op)
    requires t.accepted == t.received + t.held && |t.held| <= cap
    ensures var r := StreamStep(t, cap, op); r.accepted == r.received + r.held && |r.held| <= cap
  {
    if op.ReceiveOp? {
      var count := if op.max < |t.held| then op.max else |t.held|;
      assert t.held == t.held[..count] + t.held[count..];
    }
  }
}
