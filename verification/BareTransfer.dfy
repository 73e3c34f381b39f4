/** What a send and a receive on the bare-metal queue achieve, whatever the other side does between their
    steps: which items are accepted and delivered, and what creation answers. */
module BareTransfer {
  import opened Bits
  import opened SpscRing
  import SpscTransfer
  import opened BareQueue

  /** Creation traps on a length or an element count that is no power of two, and otherwise hands out a queue
      exactly when the items are whole elements and there are some, but no more than a slot holds. */
  lemma CreateAnswers(queueLen: nat, itemSize: nat, unit: nat, limit: nat, bits: nat)
    requires unit > 0
    ensures var c, total := Create(queueLen, itemSize, unit, limit, bits), (queueLen * (itemSize / unit)) % Pow2(bits);
            var given, whole := queueLen > 0 && itemSize > 0, itemSize % unit == 0;
            && (c == Trap <==> given && (!IsPow2(queueLen) || (whole && total > 0 && !IsPow2(total))))
            && (c.Queue? <==> given && IsPow2(queueLen) && whole && IsPow2(total) && 0 < total <= limit)
            && (c.Queue? ==> c == Queue(total, itemSize / unit))
  {
    hide And;
    hide Low;
    hide Pow2;
    hide IsPow2;
    var all := queueLen * (itemSize / unit);
    LowIsMod(all, bits);
    if queueLen > 0 { PowerOfTwoTest(queueLen); }
    if Low(all, bits) > 0 { PowerOfTwoTest(Low(all, bits)); }
  }

  function Senders<T>(run: seq<QAction<T>>): seq<QAction<T>> {
    if run == [] then []
    else Senders(run[..|run| - 1]) + if IsSenders(run[|run| - 1]) then [run[|run| - 1]] else []
  }

  function Receivers<T>(run: seq<QAction<T>>): seq<QAction<T>> {
    if run == [] then []
    else Receivers(run[..|run| - 1]) + if IsSenders(run[|run| - 1]) then [] else [run[|run| - 1]]
  }

  // ---- Sending ----

  ghost predicate SendSide<T>(q: QState<T>, q': QState<T>) {
    q'.s == q.s && q'.sent == q.sent && q'.ring.p == q.ring.p && q'.ring.w == q.ring.w && q'.ring.produced == q.ring.produced
  }

  ghost predicate ReceiveSide<T>(q: QState<T>, q': QState<T>) {
    q'.r == q.r && q'.received == q.received && q'.ring.c == q.ring.c && q'.ring.r == q.ring.r && q'.ring.consumed == q.ring.consumed
  }

  lemma ReceiverLeaves<T>(epi: nat, q: QState<T>, a: QAction<T>)
    requires Shape(q.ring) && !IsSenders(a)
    ensures SendSide(q, QNext(epi, q, a))
  {
    hide Next;
    hide Sub16;
    if a.ReceiveStart? { SpscTransfer.ConsumerLeaves(q.ring, ReadBegin(epi)); }
    if a.ReceiveStep? && !IsProducers(a.b) { SpscTransfer.ConsumerLeaves(q.ring, a.b); }
  }

  lemma SenderLeaves<T>(epi: nat, q: QState<T>, a: QAction<T>)
    requires Shape(q.ring) && IsSenders(a)
    ensures ReceiveSide(q, QNext(epi, q, a)) && q.sent <= QNext(epi, q, a).sent
  {
    hide Next;
    hide Sub16;
    if a.SendStart? && q.s.SReady? { SpscTransfer.ProducerLeaves(q.ring, WriteBegin(q.s.item)); }
    if a.SendStep? && IsProducers(a.a) { SpscTransfer.ProducerLeaves(q.ring, a.a); }
  }

  /** There is room for one more item. */
  ghost predicate HasRoom<T>(k: nat, epi: nat, q: QState<T>) {
    (|q.sent| - |q.received| + 1) * epi <= Pow2(k)
  }

  /** The steps of an accepted send of an item of epi elements after its check. */
  function SendScript<T>(epi: nat): (r: seq<QAction<T>>)
    ensures |r| == epi + 3
  {
    [SendStart, SendStep(WriteCheck)] + seq(epi, _ => SendStep(WriteCopy)) + [SendStep(WriteStore)]
  }

  ghost predicate SendAt<T>(epi: nat, q0: QState<T>, item: seq<T>, j: nat, q: QState<T>) {
    if j == epi + 3 then q.s == SIdle && q.sent == q0.sent + [item]
    else
      && q.sent == q0.sent
      && if j == 0 then q.s == SReady(item)
         else
           && q.s == SWriting(item)
           && if j == 1 then q.ring.p.PLoaded? && q.ring.p.block == item
              else q.ring.p.PCopying? && q.ring.p.block == item && q.ring.p.done == j - 2
  }

  lemma SendAdvances<T>(k: nat, epi: nat, q0: QState<T>, item: seq<T>, j: nat, q: QState<T>)
    requires QInv(k, epi, q) && j < epi + 3 && SendAt(epi, q0, item, j, q)
    ensures SendAt(epi, q0, item, j + 1, QNext(epi, q, SendScript<T>(epi)[j]))
  {
    hide Next;
    hide Inv;
    hide ReceiverOk;
    hide History;
    hide Sub16;
    if j == 0 {
      WriteStarts(k, q.ring, item);
    } else {
      WriteAdvances(k, q.ring, item);
    }
  }

  /** A block that fits is copied element by element and published whole. */
  lemma WriteAdvances<T>(k: nat, s: State<T>, block: seq<T>)
    requires Inv(k, s) && block != [] && (s.p.PLoaded? || s.p.PCopying?) && s.p.block == block
    requires s.p.PLoaded? ==> |s.produced| + |block| <= s.p.seen + Pow2(k)
    ensures s.p.PLoaded? ==> Next(s, WriteCheck).p == PCopying(block, 0, s.p.seen)
    ensures s.p.PCopying? && s.p.done < |block| ==> Next(s, WriteCopy).p == PCopying(block, s.p.done + 1, s.p.seen)
    ensures s.p.PCopying? && s.p.done == |block| ==> Next(s, WriteStore).p == PIdle
  {
    hide ConsumerNext;
    hide ConsumerOk;
    hide Contents;
    hide Cell;
    hide Sub16;
    hide Add16;
    SizeBelowWord(k);
    if s.p.PLoaded? {
      FreeSpace(|s.buf|, |s.produced|, s.p.seen);
    } else if s.p.done < |block| {
      CellIsPosition(|s.produced|, s.p.done, k);
    }
  }

  lemma {:induction false} SendRuns<T>(k: nat, epi: nat, q: QState<T>, item: seq<T>, rest: seq<QAction<T>>)
    requires QInv(k, epi, q) && q.s == SReady(item) && Senders(rest) <= SendScript(epi)
    ensures QInv(k, epi, QRun(epi, q, rest)) && SendAt(epi, q, item, |Senders(rest)|, QRun(epi, q, rest))
  {
    hide QNext;
    hide QInv;
    hide SendAt;
    hide SendScript;
    QRunKeepsInv(k, epi, q, rest);
    if rest == [] {
      SendStarts(k, epi, q, item);
    } else {
      var front, last := rest[..|rest| - 1], rest[|rest| - 1];
      SendRuns(k, epi, q, item, front);
      var before := QRun(epi, q, front);
      QShape(k, epi, before);
      if IsSenders(last) {
        SendAdvances(k, epi, q, item, |Senders(front)|, before);
        assert last == Senders(rest)[|Senders(front)|];
      } else {
        SendWaits(epi, q, item, |Senders(front)|, before, last);
      }
    }
  }

  lemma QShape<T>(k: nat, epi: nat, q: QState<T>)
    requires QInv(k, epi, q)
    ensures Shape(q.ring)
  {
    hide SenderOk;
    hide ReceiverOk;
    hide History;
  }

  lemma SendStarts<T>(k: nat, epi: nat, q: QState<T>, item: seq<T>)
    requires QInv(k, epi, q) && q.s == SReady(item)
    ensures SendAt(epi, q, item, 0, q)
  {
  }

  lemma SendWaits<T>(epi: nat, q0: QState<T>, item: seq<T>, j: nat, q: QState<T>, a: QAction<T>)
    requires SendAt(epi, q0, item, j, q) && Shape(q.ring) && !IsSenders(a)
    ensures SendAt(epi, q0, item, j, QNext(epi, q, a))
  {
    hide QNext;
    ReceiverLeaves(epi, q, a);
  }

  /** The check lets an item pass exactly when there is room for one more, and changes nothing else. */
  lemma SendAcceptedIff<T>(k: nat, epi: nat, q: QState<T>)
    requires QInv(k, epi, q) && q.s.SCounting?
    ensures Shape(q.ring)
    ensures QNext(epi, q, SendCheck) == q.(s := if HasRoom(k, epi, q) then SReady(q.s.item) else SIdle)
  {
    hide Inv;
    hide ReceiverOk;
    hide Sub16;
    hide Flat;
    RingSize(k, q.ring);
    SpscTransfer.InvCounts(k, q.ring);
    PointersAre(k, q.ring);
    FreeSpace(|q.ring.buf|, |q.ring.produced|, |q.ring.consumed|);
    Delivered(k, epi, q);
    assert (|q.sent| - |q.received| + 1) * epi == |q.sent| * epi - |q.received| * epi + epi;
    SizeBelowWord(k);
  }

  lemma PointersAre<T>(k: nat, s: State<T>)
    requires Inv(k, s)
    ensures s.w == |s.produced| % WORD && s.r == |s.consumed| % WORD && k <= 15
  {
  }

  /** A begun send of an item ends with the item appended if there was room for it at the check, and with
      nothing sent otherwise, whatever the receiver does meanwhile. */
  lemma SendCompletes<T>(k: nat, epi: nat, q: QState<T>, rest: seq<QAction<T>>)
    requires QInv(k, epi, q) && q.s.SCounting? && Shape(q.ring)
    requires Senders(rest) == if HasRoom(k, epi, q) then SendScript(epi) else []
    ensures var q' := QRun(epi, QNext(epi, q, SendCheck), rest);
            q'.s == SIdle && q'.sent == q.sent + if HasRoom(k, epi, q) then [q.s.item] else []
  {
    hide QInv;
    hide QNext;
    hide HasRoom;
    hide SendScript;
    SendAcceptedIff(k, epi, q);
    CheckKeeps(k, epi, q);
    var checked := QNext(epi, q, SendCheck);
    if HasRoom(k, epi, q) {
      SendRuns(k, epi, checked, q.s.item, rest);
    } else {
      SenderRests(k, epi, checked, rest);
    }
  }

  lemma CheckKeeps<T>(k: nat, epi: nat, q: QState<T>)
    requires QInv(k, epi, q)
    ensures Shape(q.ring) && QInv(k, epi, QNext(epi, q, SendCheck))
  {
    hide QNext;
    hide QInv;
    QShape(k, epi, q);
    SenderKeepsInv(k, epi, q, SendCheck);
  }

  lemma {:induction false} SenderRests<T>(k: nat, epi: nat, q: QState<T>, rest: seq<QAction<T>>)
    requires QInv(k, epi, q) && Senders(rest) == []
    ensures SendSide(q, QRun(epi, q, rest))
  {
    hide QNext;
    hide QInv;
    if rest != [] {
      var front, last := rest[..|rest| - 1], rest[|rest| - 1];
      assert !IsSenders(last);
      SenderRests(k, epi, q, front);
      QRunKeepsInv(k, epi, q, front);
      QShape(k, epi, QRun(epi, q, front));
      ReceiverLeaves(epi, QRun(epi, q, front), last);
    }
  }

  /** An idle sender begins exactly with an item of the queue's size; a busy one with none. */
  lemma SendBeginsIff<T>(epi: nat, q: QState<T>, item: seq<T>)
    requires Shape(q.ring)
    ensures QNext(epi, q, SendBegin(item)) ==
            if q.s.SIdle? && |item| == epi then q.(s := SCounting(item, q.ring.w)) else q
  {
  }

  // ---- Receiving ----

  function ReceiveScript<T>(epi: nat): (r: seq<QAction<T>>)
    ensures |r| == epi + 4
  {
    [ReceiveCheck, ReceiveStart, ReceiveStep(ReadCheck)] + seq(epi, _ => ReceiveStep(ReadCopy)) + [ReceiveStep(ReadStore)]
  }

  ghost predicate ReceiveAt<T>(epi: nat, q0: QState<T>, j: nat, q: QState<T>) {
    && q0.sent <= q.sent
    && if j == epi + 4 then q.r == RIdle && |q.received| == |q0.received| + 1 && q0.received <= q.received
       else
         && q.received == q0.received
         && if j == 0 then q.r.RCounting? && q.r.seen == |q0.ring.produced|
            else if j == 1 then q.r == RReady
            else
              && q.r == RReading
              && if j == 2 then q.ring.c.CLoaded?
                 else q.ring.c.CCopying? && |q.ring.c.out| == j - 3
  }

  lemma ReceiveAdvances<T>(k: nat, epi: nat, q0: QState<T>, j: nat, q: QState<T>)
    requires QInv(k, epi, q) && j < epi + 4 && ReceiveAt(epi, q0, j, q)
    requires |q0.ring.produced| == |q0.sent| * epi && |q0.received| < |q0.sent|
    ensures ReceiveAt(epi, q0, j + 1, QNext(epi, q, ReceiveScript<T>(epi)[j]))
  {
    hide Next;
    hide Inv;
    hide SenderOk;
    hide Sub16;
    hide Flat;
    if j == 0 {
      ReceiveChecks(k, epi, q);
      FlatLength(q.received, epi);
      MulMono(epi, |q0.received| + 1, |q0.sent|);
      assert (|q0.received| + 1) * epi == |q0.received| * epi + epi;
    } else if j == 1 {
      ReadStarts(k, q.ring, epi);
    } else {
      ReadAdvances(k, q.ring, epi);
    }
  }

  /** The check passes exactly when an item was there at the start. */
  lemma ReceiveChecks<T>(k: nat, epi: nat, q: QState<T>)
    requires QInv(k, epi, q) && q.r.RCounting?
    ensures Shape(q.ring)
    ensures QNext(epi, q, ReceiveCheck) == q.(r := if |q.ring.consumed| + epi <= q.r.seen then RReady else RIdle)
  {
    hide Inv;
    hide SenderOk;
    hide Sub16;
    hide History;
    SpscTransfer.InvCounts(k, q.ring);
    PointersAre(k, q.ring);
    SizeBelowWord(k);
    hide Pow2;
    hide Sized;
    hide Shape;
    Sub16Exact(q.r.seen, |q.ring.consumed|);
  }

  lemma ReadAdvances<T>(k: nat, s: State<T>, want: nat)
    requires Inv(k, s) && want > 0 && (s.c.CLoaded? || s.c.CCopying?) && s.c.want == want
    requires s.c.CLoaded? ==> |s.consumed| + want <= s.c.seen
    ensures s.c.CLoaded? ==> Next(s, ReadCheck).c == CCopying(want, [], s.c.seen)
    ensures s.c.CCopying? && |s.c.out| < want ==>
              Next(s, ReadCopy).c.CCopying? && |Next(s, ReadCopy).c.out| == |s.c.out| + 1
    ensures s.c.CCopying? && |s.c.out| == want ==> Next(s, ReadStore).c == CIdle
  {
    hide ProducerNext;
    hide ProducerOk;
    hide Contents;
    hide Cell;
    hide Sub16;
    hide Add16;
    SizeBelowWord(k);
    if s.c.CLoaded? {
      Sub16Exact(s.c.seen, |s.consumed|);
    } else if |s.c.out| < want {
      CellIsPosition(|s.consumed|, |s.c.out|, k);
    }
  }

  lemma {:induction false} ReceiveRuns<T>(k: nat, epi: nat, q: QState<T>, rest: seq<QAction<T>>)
    requires QInv(k, epi, q) && q.r.RIdle? && Shape(q.ring) && |q.received| < |q.sent|
    requires Receivers(rest) <= ReceiveScript(epi)
    ensures var q' := QRun(epi, QNext(epi, q, ReceiveBegin), rest);
            QInv(k, epi, q') && ReceiveAt(epi, q, |Receivers(rest)|, q')
    decreases |rest|
  {
    hide QNext;
    hide QInv;
    hide ReceiveAt;
    hide ReceiveScript;
    ReceiverKeepsInv(k, epi, q, ReceiveBegin);
    QRunKeepsInv(k, epi, QNext(epi, q, ReceiveBegin), rest);
    if rest == [] {
      ReceiveStarts(k, epi, q);
    } else {
      var front, last := rest[..|rest| - 1], rest[|rest| - 1];
      ReceiveRuns(k, epi, q, front);
      var before := QRun(epi, QNext(epi, q, ReceiveBegin), front);
      QShape(k, epi, before);
      if IsSenders(last) {
        ReceiveWaits(epi, q, |Receivers(front)|, before, last);
      } else {
        Delivered(k, epi, q);
        ReceiveAdvances(k, epi, q, |Receivers(front)|, before);
        assert last == Receivers(rest)[|Receivers(front)|];
      }
    }
  }

  lemma ReceiveStarts<T>(k: nat, epi: nat, q: QState<T>)
    requires QInv(k, epi, q) && q.r.RIdle? && Shape(q.ring)
    ensures ReceiveAt(epi, q, 0, QNext(epi, q, ReceiveBegin))
  {
  }

  lemma ReceiveWaits<T>(epi: nat, q0: QState<T>, j: nat, q: QState<T>, a: QAction<T>)
    requires ReceiveAt(epi, q0, j, q) && Shape(q.ring) && IsSenders(a)
    ensures ReceiveAt(epi, q0, j, QNext(epi, q, a))
  {
    hide QNext;
    SenderLeaves(epi, q, a);
  }

  /** A receive begun with an item in the queue delivers the oldest one, whatever the sender does meanwhile. */
  lemma ReceiveCompletes<T>(k: nat, epi: nat, q: QState<T>, rest: seq<QAction<T>>)
    requires QInv(k, epi, q) && q.r.RIdle? && Shape(q.ring) && |q.received| < |q.sent|
    requires Receivers(rest) == ReceiveScript(epi)
    ensures var q' := QRun(epi, QNext(epi, q, ReceiveBegin), rest);
            q'.r == RIdle && q'.received == q.received + [q.sent[|q.received|]]
  {
    hide QInv;
    hide QNext;
    hide QRun;
    hide ReceiveScript;
    ReceiveRuns(k, epi, q, rest);
    Delivered(k, epi, QRun(epi, QNext(epi, q, ReceiveBegin), rest));
  }

  /** A receive begun on an empty queue takes nothing and ends at its check. */
  lemma ReceiveFindsNothing<T>(k: nat, epi: nat, q: QState<T>, wait: seq<QAction<T>>)
    requires QInv(k, epi, q) && q.r.RIdle? && Shape(q.ring) && q.received == q.sent && Receivers(wait) == []
    ensures var before := QRun(epi, QNext(epi, q, ReceiveBegin), wait);
            && Shape(before.ring)
            && QNext(epi, before, ReceiveCheck) == before.(r := RIdle) && before.received == q.received
  {
    hide QInv;
    hide QNext;
    hide QRun;
    ReceiverKeepsInv(k, epi, q, ReceiveBegin);
    var begun := QNext(epi, q, ReceiveBegin);
    QRunKeepsInv(k, epi, begun, wait);
    ReceiverRests(k, epi, begun, wait);
    var before := QRun(epi, begun, wait);
    BegunAt(k, epi, q);
    QShape(k, epi, before);
    ReceiveChecks(k, epi, before);
    Delivered(k, epi, q);
    SizeIsPositive(k, epi, q);
  }

  lemma SizeIsPositive<T>(k: nat, epi: nat, q: QState<T>)
    requires QInv(k, epi, q)
    ensures epi > 0
  {
  }

  lemma BegunAt<T>(k: nat, epi: nat, q: QState<T>)
    requires QInv(k, epi, q) && q.r.RIdle? && Shape(q.ring)
    ensures QNext(epi, q, ReceiveBegin) == q.(r := RCounting(q.ring.w, |q.ring.produced|))
  {
  }

  lemma {:induction false} ReceiverRests<T>(k: nat, epi: nat, q: QState<T>, rest: seq<QAction<T>>)
    requires QInv(k, epi, q) && Receivers(rest) == []
    ensures ReceiveSide(q, QRun(epi, q, rest))
  {
    hide QNext;
    hide QInv;
    if rest != [] {
      var front, last := rest[..|rest| - 1], rest[|rest| - 1];
      assert IsSenders(last);
      ReceiverRests(k, epi, q, front);
      QRunKeepsInv(k, epi, q, front);
      QShape(k, epi, QRun(epi, q, front));
      SenderLeaves(epi, QRun(epi, q, front), last);
    }
  }
}
