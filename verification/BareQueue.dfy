/** The bare-metal item queue: fixed-size items of several ring elements, sent and received
    through the lock-free ring by one producer and one consumer. */
module BareQueue {
  import opened Bits
  import opened SpscRing

  // ---- Creation ----

  datatype Created = Trap | Null | Queue(elements: nat, perItem: nat)

  /** `unit` is the size of a ring element, `limit` the number of elements a pool slot holds, and sizes are
      words of `bits` bits, so the number of elements is what is left of the product in such a word. A
      ring without elements is refused by fifo_init. */
  function Create(queueLen: nat, itemSize: nat, unit: nat, limit: nat, bits: nat): Created
    requires unit > 0
  {
    if queueLen == 0 || itemSize == 0 then Null
    else if And(queueLen, queueLen - 1) != 0 then Trap
    else if itemSize % unit != 0 then Null
    else
      var perItem := itemSize / unit;
      var total := Low(queueLen * perItem, bits);
      if total > 0 && And(total, total - 1) != 0 then Trap
      else if total == 0 || total > limit then Null
      else Queue(total, perItem)
  }

  /** The ring is a power of two and holds a whole number of items. */
  ghost predicate HoldsWholeItems(q: Created)
    requires q.Queue?
  {
    exists k: nat :: k <= 15 && q.elements == Pow2(k) && Sized(k, q.perItem)
  }

  /** A queue that is handed out holds whole items if and only if the product of length and item size did
      not overflow; then it has exactly that many elements. */
  lemma CreatedHoldsWholeItemsIff(queueLen: nat, itemSize: nat, unit: nat, limit: nat, bits: nat)
    requires unit > 0 && limit < WORD && Create(queueLen, itemSize, unit, limit, bits).Queue?
    ensures var q := Create(queueLen, itemSize, unit, limit, bits);
            && q.perItem * unit == itemSize
            && (HoldsWholeItems(q) <==> queueLen * q.perItem < Pow2(bits))
            && (HoldsWholeItems(q) ==> q.elements == queueLen * q.perItem)
  {
    hide And;
    hide Pow2;
    hide Low;
    hide HoldsWholeItems;
    var q := Create(queueLen, itemSize, unit, limit, bits);
    var all := queueLen * q.perItem;
    assert q.perItem > 0 && q.elements == Low(all, bits);
    if all < Pow2(bits) {
      LowOfSmall(all, bits);
      HoldsAllOf(queueLen, q);
    } else if HoldsWholeItems(q) {
      WholeItemsFit(queueLen, q, bits);
    }
  }

  lemma HoldsAllOf(queueLen: nat, q: Created)
    requires q.Queue? && queueLen > 0 && q.perItem > 0 && q.elements == queueLen * q.perItem < WORD
    requires And(q.elements, q.elements - 1) == 0
    ensures HoldsWholeItems(q)
  {
    hide And;
    hide Sized;
    var k := WholeItems(queueLen, q.perItem);
  }

  lemma WholeItemsFit(queueLen: nat, q: Created, bits: nat)
    requires q.Queue? && queueLen > 0 && And(queueLen, queueLen - 1) == 0 && q.perItem > 0 && q.elements > 0
    requires q.elements == Low(queueLen * q.perItem, bits) && HoldsWholeItems(q)
    ensures queueLen * q.perItem < Pow2(bits)
  {
    hide And;
    hide Low;
    hide Pow2;
    hide IsPow2;
    var k: nat :| k <= 15 && q.elements == Pow2(k) && Sized(k, q.perItem);
    DivisorOfPower(k, q.perItem, Pow2(k) / q.perItem);
    PowerOfTwoTest(queueLen);
    if queueLen * q.perItem >= Pow2(bits) { OverflowLeavesNothing(queueLen, q.perItem, bits); }
  }

  /** A product of two powers of two that does not fit the word leaves nothing in it. */
  lemma OverflowLeavesNothing(a: nat, b: nat, bits: nat)
    requires IsPow2(a) && IsPow2(b) && a * b >= Pow2(bits)
    ensures Low(a * b, bits) == 0
  {
    hide Pow2;
    var i: nat :| a == Pow2(i);
    var j: nat :| b == Pow2(j);
    Pow2Add(i, j);
    if i + j < bits {
      PowerGrows(i + j, bits);
    } else {
      Pow2Add(i + j - bits, bits);
      ModOfMultiple(Pow2(i + j - bits), Pow2(bits));
    }
    LowIsMod(a * b, bits);
  }

  lemma PowerGrows(a: nat, b: nat)
    requires a < b
    ensures Pow2(a) < Pow2(b)
  {
    Pow2Mono(a + 1, b);
  }

  lemma {:induction false} DivisorOfPower(k: nat, d: nat, m: nat)
    requires d * m == Pow2(k)
    ensures IsPow2(d)
    decreases k
  {
    hide IsPow2;
    if k == 0 {
      OnlyOneDividesOne(d, m);
    } else if d % 2 == 0 {
      HalfProduct(d, m, Pow2(k - 1));
      DivisorOfPower(k - 1, d / 2, m);
      TwicePower(d / 2);
    } else {
      OddFactor(d, m, Pow2(k - 1));
      HalfProduct(m, d, Pow2(k - 1));
      assert d * (m / 2) == (m / 2) * d;
      DivisorOfPower(k - 1, d, m / 2);
    }
  }

  lemma OnlyOneDividesOne(d: nat, m: nat)
    requires d * m == 1
    ensures IsPow2(d)
  {
    if d >= 2 { MulMono(m, 2, d); }
    assert d == Pow2(0);
  }

  lemma TwicePower(d: nat)
    requires IsPow2(d)
    ensures IsPow2(2 * d)
  {
    var j: nat :| d == Pow2(j);
    assert 2 * d == Pow2(j + 1);
  }

  lemma HalfProduct(a: nat, b: nat, h: nat)
    requires a % 2 == 0 && (a * b == 2 * h || b * a == 2 * h)
    ensures (a / 2) * b == h
  {
    var e := a / 2;
    assert (2 * e) * b == 2 * (e * b);
  }

  lemma OddFactor(d: nat, m: nat, h: nat)
    requires d % 2 == 1 && d * m == 2 * h
    ensures m % 2 == 0
  {
    var e, f := d / 2, m / 2;
    if m % 2 == 1 {
      ProductOfOdds(e, f);
    }
  }

  lemma ProductOfOdds(e: nat, f: nat)
    ensures (2 * e + 1) * (2 * f + 1) == 2 * (2 * (e * f) + e + f) + 1
  {
  }

  /** For ring elements of any power-of-two size 2^a there is a queue whose product overflows and which is
      accepted all the same. Items and lengths are legal words: with 4-byte elements in 32 bits, eight
      items of 4 * (2^29 + 1) bytes. */
  lemma OverflowIsAccepted(a: nat, limit: nat, bits: nat)
    requires a + 2 <= bits && Pow2(a + 1) <= limit
    ensures var item := Pow2(bits - a - 1) + 1;
            && Create(Pow2(a + 1), Pow2(a) * item, Pow2(a), limit, bits) == Queue(Pow2(a + 1), item)
            && Pow2(a + 1) * item >= Pow2(bits) > Pow2(a) * item
  {
    hide Low;
    hide And;
    hide Pow2;
    hide Create;
    var len, unit, h := Pow2(a + 1), Pow2(a), Pow2(bits - a - 1);
    assert len == 2 * unit && unit * h == Pow2(bits - 1) && Pow2(bits) == 2 * Pow2(bits - 1) by { Doubles(a, bits); }
    Spread(unit, h);
    HalfOfPower(a, bits);
    Remainder(len * (h + 1), bits, len);
    PowerOfTwoTest(len);
    Creates(len, unit * (h + 1), unit, h + 1, len, limit, bits);
  }

  lemma Doubles(a: nat, bits: nat)
    requires a + 2 <= bits
    ensures Pow2(a + 1) == 2 * Pow2(a) && Pow2(a) * Pow2(bits - a - 1) == Pow2(bits - 1) && Pow2(bits) == 2 * Pow2(bits - 1)
  {
    Pow2Add(a, bits - a - 1);
  }

  lemma Spread(unit: nat, h: nat)
    requires unit > 0
    ensures unit * (h + 1) == unit * h + unit && (2 * unit) * (h + 1) == 2 * (unit * h) + 2 * unit
    ensures (unit * (h + 1)) % unit == 0 && (unit * (h + 1)) / unit == h + 1
  {
    DivModUnique(unit * (h + 1), unit, h + 1, 0);
  }

  lemma Remainder(x: nat, bits: nat, r: nat)
    requires x == Pow2(bits) + r && r < Pow2(bits)
    ensures Low(x, bits) == r
  {
    LowIsMod(x, bits);
    DivModUnique(x, Pow2(bits), 1, r);
  }

  lemma Creates(len: nat, itemSize: nat, unit: nat, perItem: nat, total: nat, limit: nat, bits: nat)
    requires len > 0 && itemSize > 0 && unit > 0 && And(len, len - 1) == 0
    requires itemSize % unit == 0 && itemSize / unit == perItem
    requires Low(len * perItem, bits) == total && 0 < total <= limit && And(total, total - 1) == 0
    ensures Create(len, itemSize, unit, limit, bits) == Queue(total, perItem)
  {
  }

  lemma HalfOfPower(a: nat, bits: nat)
    requires a + 2 <= bits
    ensures Pow2(bits - 1) + Pow2(a) < Pow2(bits)
  {
    PowerGrows(a, bits - 1);
  }

  lemma WholeItems(queueLen: nat, perItem: nat) returns (k: nat)
    requires queueLen > 0 && perItem > 0 && queueLen * perItem < WORD
    requires And(queueLen * perItem, queueLen * perItem - 1) == 0
    ensures k <= 15 && queueLen * perItem == Pow2(k) && Sized(k, perItem)
  {
    hide And;
    MulMono(perItem, 1, queueLen);
    PowerOfTwoTest(queueLen * perItem);
    var j: nat :| queueLen * perItem == Pow2(j);
    k := j;
    ModOfMultiple(queueLen, perItem);
    PowerWithin(k);
  }

  lemma PowerWithin(k: nat)
    requires Pow2(k) < WORD
    ensures k <= 15
  {
    assert Pow2(16) == 0x1_0000 by { Pow2Add(8, 8); assert Pow2(8) == 256; }
    if k > 15 { Pow2Mono(16, k); }
  }

  // ---- Sending and receiving as steps ----

  ghost predicate Sized(k: nat, epi: nat) {
    0 < epi <= Pow2(k) && Pow2(k) % epi == 0
  }

  /** The sender: fifo_get_count reads w_ptr, then r_ptr; then the block write runs. */
  datatype Sender<T> = SIdle | SCounting(item: seq<T>, wr: nat) | SReady(item: seq<T>) | SWriting(item: seq<T>)

  datatype Receiver = RIdle | RCounting(wr: nat, seen: nat) | RReady | RReading

  datatype QState<T> = QState(ring: State<T>, s: Sender<T>, r: Receiver, sent: seq<seq<T>>, received: seq<seq<T>>)

  datatype QAction<T> =
    | SendBegin(item: seq<T>) | SendCheck | SendStart | SendStep(a: Action<T>)
    | ReceiveBegin | ReceiveCheck | ReceiveStart | ReceiveStep(b: Action<T>)

  /** mini_queue_send_internal. */
  function SenderNext<T>(epi: nat, q: QState<T>, a: QAction<T>): QState<T>
    requires Shape(q.ring)
  {
    var size := |q.ring.buf|;
    match (a, q.s)
    case (SendBegin(item), SIdle) => if |item| == epi then q.(s := SCounting(item, q.ring.w)) else q
    case (SendCheck, SCounting(item, wr)) =>
      if wr >= WORD then q else
      var count := Sub16(wr, q.ring.r);
      if (size + WORD - count) % WORD < epi then q.(s := SIdle) else q.(s := SReady(item))
    case (SendStart, SReady(item)) => q.(ring := Next(q.ring, WriteBegin(item)), s := SWriting(item))
    case (SendStep(x), SWriting(item)) =>
      if !(x.WriteCheck? || x.WriteCopy? || x.WriteStore?) then q else
      var ring := Next(q.ring, x);
      if q.ring.p.PCopying? && ring.p.PIdle? then q.(ring := ring, s := SIdle, sent := q.sent + [q.ring.p.block])
      else q.(ring := ring)
    case _ => q
  }

  /** mini_queue_receive and mini_queue_receive_from_isr; waiting repeats begin and check. */
  function ReceiverNext<T>(epi: nat, q: QState<T>, a: QAction<T>): QState<T>
    requires Shape(q.ring)
  {
    match (a, q.r)
    case (ReceiveBegin, RIdle) => q.(r := RCounting(q.ring.w, |q.ring.produced|))
    case (ReceiveCheck, RCounting(wr, _)) =>
      if wr >= WORD then q else
      if Sub16(wr, q.ring.r) < epi then q.(r := RIdle) else q.(r := RReady)
    case (ReceiveStart, RReady) => q.(ring := Next(q.ring, ReadBegin(epi)), r := RReading)
    case (ReceiveStep(x), RReading) =>
      if !(x.ReadCheck? || x.ReadCopy? || x.ReadStore?) then q else
      var ring := Next(q.ring, x);
      if q.ring.c.CCopying? && ring.c.CIdle? then q.(ring := ring, r := RIdle, received := q.received + [q.ring.c.out])
      else q.(ring := ring)
    case _ => q
  }

  predicate IsSenders<T>(a: QAction<T>) {
    a.SendBegin? || a.SendCheck? || a.SendStart? || a.SendStep?
  }

  function QNext<T>(epi: nat, q: QState<T>, a: QAction<T>): QState<T>
    requires Shape(q.ring)
  {
    if IsSenders(a) then SenderNext(epi, q, a) else ReceiverNext(epi, q, a)
  }

  // ---- Items in the element stream ----

  function Flat<T>(items: seq<seq<T>>): seq<T>
  {
    if items == [] then [] else Flat(items[..|items| - 1]) + items[|items| - 1]
  }

  ghost predicate AllSized<T>(items: seq<seq<T>>, epi: nat) {
    forall i :: 0 <= i < |items| ==> |items[i]| == epi
  }

  lemma FlatAppend<T>(items: seq<seq<T>>, item: seq<T>)
    ensures Flat(items + [item]) == Flat(items) + item
  {
    assert (items + [item])[..|items|] == items;
  }

  lemma {:induction false} FlatLength<T>(items: seq<seq<T>>, epi: nat)
    requires AllSized(items, epi)
    ensures |Flat(items)| == |items| * epi
  {
    if items != [] {
      var n := |items| - 1;
      FlatLength(items[..n], epi);
      assert n * epi + epi == (n + 1) * epi;
    }
  }

  /** Item n is where it should be in the flattened stream. */
  lemma {:induction false} FlatItem<T>(items: seq<seq<T>>, epi: nat, n: nat)
    requires AllSized(items, epi) && n < |items|
    ensures n * epi + epi <= |Flat(items)| && Flat(items)[n * epi..n * epi + epi] == items[n]
  {
    var front := items[..|items| - 1];
    FlatLength(front, epi);
    if n < |front| {
      FlatItem(front, epi, n);
      assert Flat(items)[n * epi..n * epi + epi] == Flat(front)[n * epi..n * epi + epi];
    }
  }

  // ---- The invariant ----

  ghost predicate SenderOk<T>(k: nat, epi: nat, q: QState<T>) {
    var published, released, size := |q.ring.produced|, |q.ring.consumed|, Pow2(k);
    match q.s
    case SIdle => q.ring.p.PIdle?
    case SCounting(item, wr) => q.ring.p.PIdle? && |item| == epi && wr == q.ring.w
    case SReady(item) => q.ring.p.PIdle? && |item| == epi && published + epi <= released + size
    case SWriting(item) =>
      && |item| == epi
      && ((q.ring.p.PLoaded? && q.ring.p.block == item && published + epi <= q.ring.p.seen + size) ||
          (q.ring.p.PCopying? && q.ring.p.block == item))
  }

  ghost predicate ReceiverOk<T>(epi: nat, q: QState<T>) {
    var published, released := |q.ring.produced|, |q.ring.consumed|;
    match q.r
    case RIdle => q.ring.c.CIdle?
    case RCounting(wr, seen) => q.ring.c.CIdle? && wr == seen % WORD && released <= seen <= published
    case RReady => q.ring.c.CIdle? && released + epi <= published
    case RReading =>
      || (q.ring.c.CLoaded? && q.ring.c.want == epi && released + epi <= q.ring.c.seen)
      || (q.ring.c.CCopying? && q.ring.c.want == epi)
  }

  ghost predicate History<T>(epi: nat, q: QState<T>) {
    && AllSized(q.sent, epi) && AllSized(q.received, epi)
    && q.ring.produced == Flat(q.sent) && q.ring.consumed == Flat(q.received)
  }

  ghost predicate QInv<T>(k: nat, epi: nat, q: QState<T>) {
    Sized(k, epi) && Inv(k, q.ring) && SenderOk(k, epi, q) && ReceiverOk(epi, q) && History(epi, q)
  }

  function QInit<T>(buf: seq<T>): QState<T> {
    QState(Init(buf), SIdle, RIdle, [], [])
  }

  lemma QInitInv<T>(k: nat, epi: nat, buf: seq<T>)
    requires k <= 15 && |buf| == Pow2(k) && Sized(k, epi)
    ensures QInv(k, epi, QInit(buf))
  {
    InitInv(k, buf);
  }

  /** What a receiver's step leaves the sender with, and the other way round. */
  lemma SenderKept<T>(k: nat, epi: nat, q: QState<T>, q': QState<T>)
    requires SenderOk(k, epi, q)
    requires q'.s == q.s && q'.ring.p == q.ring.p && q'.ring.w == q.ring.w && q'.ring.produced == q.ring.produced
    requires |q.ring.consumed| <= |q'.ring.consumed|
    ensures SenderOk(k, epi, q')
  {
  }

  lemma ReceiverKept<T>(epi: nat, q: QState<T>, q': QState<T>)
    requires ReceiverOk(epi, q)
    requires q'.r == q.r && q'.ring.c == q.ring.c && q'.ring.consumed == q.ring.consumed
    requires |q.ring.produced| <= |q'.ring.produced|
    ensures ReceiverOk(epi, q')
  {
  }

  lemma SenderKeepsInv<T>(k: nat, epi: nat, q: QState<T>, a: QAction<T>)
    requires QInv(k, epi, q) && IsSenders(a)
    ensures QInv(k, epi, QNext(epi, q, a))
  {
    hide Next;
    hide Inv;
    hide ReceiverOk;
    hide History;
    hide Sub16;
    RingSize(k, q.ring);
    var q' := QNext(epi, q, a);
    match a {
      case SendBegin(_) =>
        SameHistory(epi, q, q');
      case SendCheck =>
        FreeSpace(|q.ring.buf|, |q.ring.produced|, |q.ring.consumed|);
        SameHistory(epi, q, q');
      case SendStart =>
        if q.s.SReady? { WriteStarts(k, q.ring, q.s.item); }
        SameHistory(epi, q, q');
      case SendStep(x) =>
        SendStepKeepsInv(k, epi, q, x);
    }
    if !a.SendStep? { ReceiverKept(epi, q, q'); }
  }

  lemma SendStepKeepsInv<T>(k: nat, epi: nat, q: QState<T>, x: Action<T>)
    requires QInv(k, epi, q)
    ensures Shape(q.ring) && QInv(k, epi, QNext(epi, q, SendStep(x)))
  {
    hide Next;
    hide Inv;
    hide ReceiverOk;
    hide History;
    RingSize(k, q.ring);
    var q' := QNext(epi, q, SendStep(x));
    if q.s.SWriting? && (x.WriteCheck? || x.WriteCopy? || x.WriteStore?) {
      WriteStepEffect(k, q.ring, x, q.s.item);
      StepKeepsInv(k, q.ring, x);
      if q'.sent == q.sent { SameHistory(epi, q, q'); } else { SentHistory(epi, q, q', q.s.item); }
      ReceiverKept(epi, q, q');
    }
  }

  lemma RingSize<T>(k: nat, s: State<T>)
    requires Inv(k, s)
    ensures Shape(s) && |s.buf| == Pow2(k) && 2 * |s.buf| <= WORD
    ensures |s.consumed| <= |s.produced| <= |s.consumed| + |s.buf|
    ensures s.w == |s.produced| % WORD && s.r == |s.consumed| % WORD
  {
    SizeBelowWord(k);
  }

  lemma SameHistory<T>(epi: nat, q: QState<T>, q': QState<T>)
    requires History(epi, q) && q'.sent == q.sent && q'.received == q.received
    requires q'.ring.produced == q.ring.produced && q'.ring.consumed == q.ring.consumed
    ensures History(epi, q')
  {
  }

  lemma SentHistory<T>(epi: nat, q: QState<T>, q': QState<T>, item: seq<T>)
    requires History(epi, q) && |item| == epi && q'.sent == q.sent + [item] && q'.received == q.received
    requires q'.ring.produced == q.ring.produced + item && q'.ring.consumed == q.ring.consumed
    ensures History(epi, q')
  {
    FlatAppend(q.sent, item);
  }

  lemma ReceivedHistory<T>(epi: nat, q: QState<T>, q': QState<T>, item: seq<T>)
    requires History(epi, q) && |item| == epi && q'.sent == q.sent && q'.received == q.received + [item]
    requires q'.ring.produced == q.ring.produced && q'.ring.consumed == q.ring.consumed + item
    ensures History(epi, q')
  {
    FlatAppend(q.received, item);
  }

  lemma WriteStarts<T>(k: nat, s: State<T>, block: seq<T>)
    requires Inv(k, s) && s.p.PIdle? && block != []
    ensures Next(s, WriteBegin(block)) == s.(p := PLoaded(block, s.r, |s.consumed|))
    ensures Inv(k, Next(s, WriteBegin(block)))
  {
    hide Inv;
    hide ConsumerNext;
    StepKeepsInv(k, s, WriteBegin(block));
  }

  /** A block write with enough room is never clipped and publishes exactly its block. */
  lemma WriteStepEffect<T>(k: nat, s: State<T>, x: Action<T>, block: seq<T>)
    requires Inv(k, s) && (x.WriteCheck? || x.WriteCopy? || x.WriteStore?) && block != []
    requires s.p.PLoaded? || s.p.PCopying?
    requires s.p.block == block && (s.p.PLoaded? ==> |s.produced| + |block| <= s.p.seen + Pow2(k))
    ensures var s' := Next(s, x);
            && s'.c == s.c && s'.consumed == s.consumed && |s'.buf| == |s.buf|
            && ((s'.produced == s.produced && s'.w == s.w && (s'.p == s.p || (s'.p.PCopying? && s'.p.block == block))) ||
                (s.p.PCopying? && s'.p.PIdle? && s'.produced == s.produced + block))
  {
    hide ConsumerNext;
    hide ConsumerOk;
    hide Contents;
    hide Cell;
    hide Sub16;
    hide Add16;
    hide And;
    SizeBelowWord(k);
    if s.p.PLoaded? {
      FreeSpace(|s.buf|, |s.produced|, s.p.seen);
    }
  }

  lemma ReadStarts<T>(k: nat, s: State<T>, want: nat)
    requires Inv(k, s) && s.c.CIdle? && want > 0
    ensures Next(s, ReadBegin(want)) == s.(c := CLoaded(want, s.w, |s.produced|))
    ensures Inv(k, Next(s, ReadBegin(want)))
  {
    hide Inv;
    hide ProducerNext;
    StepKeepsInv(k, s, ReadBegin(want));
  }

  /** A block read with enough elements delivers exactly as many as it wanted. */
  lemma ReadStepEffect<T>(k: nat, s: State<T>, x: Action<T>, want: nat)
    requires Inv(k, s) && (x.ReadCheck? || x.ReadCopy? || x.ReadStore?)
    requires s.c.CLoaded? || s.c.CCopying?
    requires s.c.want == want && (s.c.CLoaded? ==> |s.consumed| + want <= s.c.seen)
    ensures var s' := Next(s, x);
            && s'.p == s.p && s'.produced == s.produced && s'.w == s.w && s'.buf == s.buf
            && ((s'.consumed == s.consumed && (s'.c == s.c || (s'.c.CCopying? && s'.c.want == want))) ||
                (s.c.CCopying? && |s.c.out| == want && s'.c.CIdle? && s'.consumed == s.consumed + s.c.out))
  {
    hide ProducerNext;
    hide ProducerOk;
    hide Contents;
    hide Cell;
    hide Sub16;
    SizeBelowWord(k);
    if s.c.CLoaded? {
      Sub16Exact(s.c.seen, |s.consumed|);
    }
  }

  lemma ReceiverKeepsInv<T>(k: nat, epi: nat, q: QState<T>, a: QAction<T>)
    requires QInv(k, epi, q) && !IsSenders(a)
    ensures QInv(k, epi, QNext(epi, q, a))
  {
    hide Next;
    hide Inv;
    hide SenderOk;
    hide History;
    hide Sub16;
    RingSize(k, q.ring);
    var q' := QNext(epi, q, a);
    match a {
      case ReceiveBegin =>
        SameHistory(epi, q, q');
      case ReceiveCheck =>
        if q.r.RCounting? { Sub16Exact(q.r.seen, |q.ring.consumed|); }
        SameHistory(epi, q, q');
      case ReceiveStart =>
        if q.r.RReady? { ReadStarts(k, q.ring, epi); }
        SameHistory(epi, q, q');
      case ReceiveStep(x) =>
        ReceiveStepKeepsInv(k, epi, q, x);
    }
    if !a.ReceiveStep? { SenderKept(k, epi, q, q'); }
  }

  lemma ReceiveStepKeepsInv<T>(k: nat, epi: nat, q: QState<T>, x: Action<T>)
    requires QInv(k, epi, q)
    ensures Shape(q.ring) && QInv(k, epi, QNext(epi, q, ReceiveStep(x)))
  {
    hide Next;
    hide Inv;
    hide SenderOk;
    hide History;
    RingSize(k, q.ring);
    var q' := QNext(epi, q, ReceiveStep(x));
    if q.r.RReading? && (x.ReadCheck? || x.ReadCopy? || x.ReadStore?) {
      ReadStepEffect(k, q.ring, x, epi);
      StepKeepsInv(k, q.ring, x);
      if q'.received == q.received { SameHistory(epi, q, q'); } else { ReceivedHistory(epi, q, q', q.ring.c.out); }
      SenderKept(k, epi, q, q');
    }
  }

  ghost function QRun<T>(epi: nat, q: QState<T>, run: seq<QAction<T>>): QState<T>
  {
    if run == [] then q
    else
      var before := QRun(epi, q, run[..|run| - 1]);
      if Shape(before.ring) then QNext(epi, before, run[|run| - 1]) else before
  }

  lemma {:induction false} QRunKeepsInv<T>(k: nat, epi: nat, q: QState<T>, run: seq<QAction<T>>)
    requires QInv(k, epi, q)
    ensures QInv(k, epi, QRun(epi, q, run))
  {
    if run != [] {
      var before, a := QRun(epi, q, run[..|run| - 1]), run[|run| - 1];
      QRunKeepsInv(k, epi, q, run[..|run| - 1]);
      if IsSenders(a) { SenderKeepsInv(k, epi, before, a); } else { ReceiverKeepsInv(k, epi, before, a); }
    }
  }

  /** Equal-sized items make the flattened streams comparable item by item. */
  lemma FlatPrefix<T>(shorter: seq<seq<T>>, longer: seq<seq<T>>, epi: nat)
    requires epi > 0 && AllSized(shorter, epi) && AllSized(longer, epi) && Flat(shorter) <= Flat(longer)
    ensures shorter <= longer
  {
    hide Flat;
    hide AllSized;
    FlatLength(shorter, epi);
    FlatLength(longer, epi);
    if |shorter| > |longer| {
      MulMono(epi, |longer| + 1, |shorter|);
    }
    forall n | 0 <= n < |shorter|
      ensures shorter[n] == longer[n]
    {
      FlatItem(shorter, epi, n);
      FlatItem(longer, epi, n);
      var a := n * epi;
      assert Flat(shorter)[a..a + epi] == Flat(longer)[a..a + epi];
    }
  }

  /** A queue of whole items, over every interleaving: what was received is, item for item, what was
      sent first, and the ring never publishes or releases part of an item. */
  lemma QueueRefinesItems<T>(k: nat, epi: nat, buf: seq<T>, run: seq<QAction<T>>)
    requires k <= 15 && |buf| == Pow2(k) && Sized(k, epi)
    ensures var q := QRun(epi, QInit(buf), run);
            && q.received <= q.sent
            && |q.ring.produced| == |q.sent| * epi && |q.ring.consumed| == |q.received| * epi
            && (|q.sent| - |q.received|) * epi <= |buf|
  {
    hide QRun;
    hide Inv;
    hide QInv;
    QInitInv(k, epi, buf);
    QRunKeepsInv(k, epi, QInit(buf), run);
    Delivered(k, epi, QRun(epi, QInit(buf), run));
  }

  lemma Delivered<T>(k: nat, epi: nat, q: QState<T>)
    requires QInv(k, epi, q)
    ensures q.received <= q.sent
    ensures |q.ring.produced| == |q.sent| * epi && |q.ring.consumed| == |q.received| * epi
    ensures (|q.sent| - |q.received|) * epi <= Pow2(k)
  {
    hide Flat;
    hide ProducerOk;
    hide ConsumerOk;
    hide SenderOk;
    hide ReceiverOk;
    FlatLength(q.sent, epi);
    FlatLength(q.received, epi);
    FlatPrefix(q.received, q.sent, epi);
  }
}
