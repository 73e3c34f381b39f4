/** What each operation of the ring achieves, whatever the other thread does between its steps: how much of
    a block is written or read, when an operation gives up, and which elements change hands. */
module SpscTransfer {
  import opened Bits
  import opened SpscRing

  function Min(a: nat, b: nat): nat {
    if a < b then a else b
  }

  /** The steps of the consumer in a run, and those of the producer. */
  function Consumers<T>(run: seq<Action<T>>): seq<Action<T>> {
    if run == [] then []
    else Consumers(run[..|run| - 1]) + if IsProducers(run[|run| - 1]) then [] else [run[|run| - 1]]
  }

  function Producers<T>(run: seq<Action<T>>): seq<Action<T>> {
    if run == [] then []
    else Producers(run[..|run| - 1]) + if IsProducers(run[|run| - 1]) then [run[|run| - 1]] else []
  }

  /** The producer leaves the consumer's side alone and only adds to what is published. */
  lemma ProducerLeaves<T>(s: State<T>, a: Action<T>)
    requires Shape(s) && IsProducers(a)
    ensures var s' := Next(s, a); s'.r == s.r && s'.c == s.c && s'.consumed == s.consumed && s.produced <= s'.produced
  {
    hide ConsumerNext;
    hide Cell;
  }

  /** And the other way round. */
  lemma ConsumerLeaves<T>(s: State<T>, a: Action<T>)
    requires Shape(s) && !IsProducers(a)
    ensures var s' := Next(s, a);
            s'.buf == s.buf && s'.w == s.w && s'.p == s.p && s'.produced == s.produced && s.consumed <= s'.consumed
  {
    hide ProducerNext;
    hide Cell;
  }

  /** An operation begins only while its side is idle, and only if there is something to move: a begin at any
      other time changes nothing. */
  lemma BeginsIff<T>(k: nat, s: State<T>, block: seq<T>, want: nat)
    requires Inv(k, s)
    ensures Next(s, WriteBegin(block)) != s <==> s.p == PIdle && block != []
    ensures Next(s, AcquireBegin) != s <==> s.p == PIdle
    ensures Next(s, ReadBegin(want)) != s <==> s.c == CIdle && want != 0
    ensures Next(s, PeekBegin) != s <==> s.c == CIdle
  {
    hide Inv;
    InvCounts(k, s);
  }

  // ---- Reading ----

  /** The steps of a read of m elements after it loaded w_ptr. */
  function ReadScript<T>(m: nat): (r: seq<Action<T>>)
    ensures |r| == if m == 0 then 1 else m + 2
  {
    if m == 0 then [ReadCheck] else [ReadCheck] + seq(m, _ => ReadCopy) + [ReadStore]
  }

  /** A read begun in s0 that is to deliver m elements, after j of its steps. */
  ghost predicate ReadAt<T>(s0: State<T>, want: nat, m: nat, j: nat, s: State<T>)
    requires |s0.consumed| + m <= |s0.produced|
  {
    && s0.produced <= s.produced
    && if j == 0 then s.c == CLoaded(want, s0.w, |s0.produced|) && s.consumed == s0.consumed
       else if j >= (if m == 0 then 1 else m + 2) then
         s.c == CIdle && s.consumed == s0.consumed + s0.produced[|s0.consumed|..|s0.consumed| + m]
       else s.c.CCopying? && s.c.want == m && |s.c.out| == j - 1 && s.consumed == s0.consumed
  }

  lemma ReadStep<T>(k: nat, s0: State<T>, want: nat, j: nat, s: State<T>)
    requires Inv(k, s0) && Inv(k, s) && want > 0
    requires var m := Min(want, |s0.produced| - |s0.consumed|); j < |ReadScript<T>(m)| && ReadAt(s0, want, m, j, s)
    ensures var m := Min(want, |s0.produced| - |s0.consumed|); ReadAt(s0, want, m, j + 1, Next(s, ReadScript(m)[j]))
  {
    hide ProducerNext;
    hide ProducerOk;
    hide Contents;
    hide Cell;
    hide Sub16;
    hide Add16;
    hide Pow2;
    var n, a := |s0.consumed|, |s0.produced| - |s0.consumed|;
    var m := Min(want, a);
    if j == 0 {
      ReadChecks(k, s0, want, s);
    } else if j <= m {
      NextElement(k, s, j - 1);
    } else {
      assert s.produced[n..n + m] == s0.produced[n..n + m];
    }
  }

  /** What is wanted is clipped to what was there. */
  lemma ReadChecks<T>(k: nat, s0: State<T>, want: nat, s: State<T>)
    requires Inv(k, s0) && Inv(k, s) && want > 0 && ReadAt(s0, want, Min(want, |s0.produced| - |s0.consumed|), 0, s)
    ensures ReadAt(s0, want, Min(want, |s0.produced| - |s0.consumed|), 1, Next(s, ReadCheck))
  {
    hide ProducerNext;
    hide ProducerOk;
    hide ConsumerOk;
    hide Contents;
    hide Sub16;
    SizeBelowWord(k);
    Sub16Exact(|s0.produced|, |s0.consumed|);
    hide Pow2;
  }

  lemma {:induction false} ReadRuns<T>(k: nat, s: State<T>, want: nat, rest: seq<Action<T>>)
    requires Inv(k, s) && s.c.CIdle? && want > 0
    requires Consumers(rest) <= ReadScript(Min(want, |s.produced| - |s.consumed|))
    ensures var s' := Run(Next(s, ReadBegin(want)), rest);
            Inv(k, s') && ReadAt(s, want, Min(want, |s.produced| - |s.consumed|), |Consumers(rest)|, s')
    decreases |rest|
  {
    hide Next;
    hide Inv;
    hide ReadAt;
    hide ReadScript;
    InvCounts(k, s);
    if rest == [] {
      ReadLoads(k, s, want);
    } else {
      var front, last := rest[..|rest| - 1], rest[|rest| - 1];
      ReadRuns(k, s, want, front);
      var before := Run(Next(s, ReadBegin(want)), front);
      InvCounts(k, before);
      StepKeepsInv(k, before, last);
      if IsProducers(last) {
        ReadWaits(s, want, Min(want, |s.produced| - |s.consumed|), |Consumers(front)|, before, last);
      } else {
        ReadStep(k, s, want, |Consumers(front)|, before);
        assert last == Consumers(rest)[|Consumers(front)|];
      }
    }
  }

  lemma InvCounts<T>(k: nat, s: State<T>)
    requires Inv(k, s)
    ensures Shape(s) && |s.consumed| <= |s.produced| && |s.produced| - |s.consumed| <= Pow2(k)
  {
  }

  lemma ReadLoads<T>(k: nat, s: State<T>, want: nat)
    requires Inv(k, s) && s.c.CIdle? && want > 0
    ensures var s' := Next(s, ReadBegin(want));
            Inv(k, s') && ReadAt(s, want, Min(want, |s.produced| - |s.consumed|), 0, s')
  {
    StepKeepsInv(k, s, ReadBegin(want));
  }

  lemma ReadWaits<T>(s0: State<T>, want: nat, m: nat, j: nat, s: State<T>, a: Action<T>)
    requires |s0.consumed| + m <= |s0.produced| && ReadAt(s0, want, m, j, s) && Shape(s) && IsProducers(a)
    ensures ReadAt(s0, want, m, j, Next(s, a))
  {
    hide Next;
    ProducerLeaves(s, a);
  }

  /** A read of `want` elements, begun with some published and not released, delivers as many of the oldest
      as are wanted and there, whatever the producer does meanwhile. */
  lemma ReadDelivers<T>(k: nat, s: State<T>, want: nat, rest: seq<Action<T>>)
    requires Inv(k, s) && s.c.CIdle? && want > 0
    requires Consumers(rest) == ReadScript(Min(want, |s.produced| - |s.consumed|))
    ensures var s', m := Run(Next(s, ReadBegin(want)), rest), Min(want, |s.produced| - |s.consumed|);
            s'.c == CIdle && s'.consumed == s.consumed + s.produced[|s.consumed|..|s.consumed| + m]
  {
    ReadRuns(k, s, want, rest);
  }

  /** It gives up at its check exactly when nothing was there. */
  lemma ReadGivesUpIff<T>(k: nat, s: State<T>, want: nat, rest: seq<Action<T>>)
    requires Inv(k, s) && s.c.CIdle? && want > 0 && Consumers(rest) == [ReadCheck]
    ensures var s' := Run(Next(s, ReadBegin(want)), rest);
            s'.consumed == s.consumed && (s'.c == CIdle <==> s.produced == s.consumed)
  {
    hide Inv;
    InvCounts(k, s);
    assert [ReadCheck] <= ReadScript<T>(Min(want, |s.produced| - |s.consumed|));
    ReadRuns(k, s, want, rest);
    assert s.produced == s.consumed <==> |s.produced| == |s.consumed| by { PrefixOf(k, s); }
  }

  lemma PrefixOf<T>(k: nat, s: State<T>)
    requires Inv(k, s)
    ensures s.consumed <= s.produced
  {
  }

  // ---- Writing ----

  function WriteScript<T>(m: nat): (r: seq<Action<T>>)
    ensures |r| == if m == 0 then 1 else m + 2
  {
    if m == 0 then [WriteCheck] else [WriteCheck] + seq(m, _ => WriteCopy) + [WriteStore]
  }

  /** Free cells of the ring. */
  ghost function Free<T>(k: nat, s: State<T>): nat
    requires Inv(k, s)
  {
    |s.consumed| + Pow2(k) - |s.produced|
  }

  ghost predicate WriteAt<T>(s0: State<T>, block: seq<T>, m: nat, j: nat, s: State<T>)
    requires m <= |block|
  {
    if j == 0 then s.p == PLoaded(block, s0.r, |s0.consumed|) && s.produced == s0.produced
    else if j >= (if m == 0 then 1 else m + 2) then s.p == PIdle && s.produced == s0.produced + block[..m]
    else s.p == PCopying(block[..m], j - 1, |s0.consumed|) && s.produced == s0.produced
  }

  lemma WriteStep<T>(k: nat, s0: State<T>, block: seq<T>, j: nat, s: State<T>)
    requires Inv(k, s0) && Inv(k, s) && block != []
    requires var m := Min(|block|, Free(k, s0)); j < |WriteScript<T>(m)| && WriteAt(s0, block, m, j, s)
    ensures var m := Min(|block|, Free(k, s0)); WriteAt(s0, block, m, j + 1, Next(s, WriteScript(m)[j]))
  {
    hide ConsumerNext;
    hide ConsumerOk;
    hide Contents;
    hide Cell;
    hide Sub16;
    hide Add16;
    var m := Min(|block|, Free(k, s0));
    if j == 0 {
      WriteChecks(k, s0, block, s);
    } else if j <= m {
      hide Pow2;
      CellIsPosition(|s.produced|, j - 1, k);
    }
  }

  /** The block is clipped to what was free. */
  lemma WriteChecks<T>(k: nat, s0: State<T>, block: seq<T>, s: State<T>)
    requires Inv(k, s0) && Inv(k, s) && block != [] && WriteAt(s0, block, Min(|block|, Free(k, s0)), 0, s)
    ensures WriteAt(s0, block, Min(|block|, Free(k, s0)), 1, Next(s, WriteCheck))
  {
    hide ConsumerNext;
    hide ConsumerOk;
    hide ProducerOk;
    hide Contents;
    hide Sub16;
    SizeBelowWord(k);
    FreeSpace(Pow2(k), |s0.produced|, |s0.consumed|);
    hide Pow2;
    assert block[..|block|] == block;
  }

  lemma {:induction false} WriteRuns<T>(k: nat, s: State<T>, block: seq<T>, rest: seq<Action<T>>)
    requires Inv(k, s) && s.p.PIdle? && block != []
    requires Producers(rest) <= WriteScript(Min(|block|, Free(k, s)))
    ensures var s' := Run(Next(s, WriteBegin(block)), rest);
            Inv(k, s') && WriteAt(s, block, Min(|block|, Free(k, s)), |Producers(rest)|, s')
    decreases |rest|
  {
    hide Next;
    hide Inv;
    hide WriteAt;
    hide WriteScript;
    InvCounts(k, s);
    if rest == [] {
      WriteLoads(k, s, block);
    } else {
      var front, last := rest[..|rest| - 1], rest[|rest| - 1];
      WriteRuns(k, s, block, front);
      var before := Run(Next(s, WriteBegin(block)), front);
      InvCounts(k, before);
      StepKeepsInv(k, before, last);
      if IsProducers(last) {
        WriteStep(k, s, block, |Producers(front)|, before);
        assert last == Producers(rest)[|Producers(front)|];
      } else {
        WriteWaits(s, block, Min(|block|, Free(k, s)), |Producers(front)|, before, last);
      }
    }
  }

  lemma WriteLoads<T>(k: nat, s: State<T>, block: seq<T>)
    requires Inv(k, s) && s.p.PIdle? && block != []
    ensures var s' := Next(s, WriteBegin(block)); Inv(k, s') && WriteAt(s, block, Min(|block|, Free(k, s)), 0, s')
  {
    StepKeepsInv(k, s, WriteBegin(block));
  }

  lemma WriteWaits<T>(s0: State<T>, block: seq<T>, m: nat, j: nat, s: State<T>, a: Action<T>)
    requires m <= |block| && WriteAt(s0, block, m, j, s) && Shape(s) && !IsProducers(a)
    ensures WriteAt(s0, block, m, j, Next(s, a))
  {
    hide Next;
    ConsumerLeaves(s, a);
  }

  /** A write publishes the first elements of its block, as many as were free when it began, whatever the
      consumer does meanwhile. */
  lemma WriteDelivers<T>(k: nat, s: State<T>, block: seq<T>, rest: seq<Action<T>>)
    requires Inv(k, s) && s.p.PIdle? && block != []
    requires Producers(rest) == WriteScript(Min(|block|, Free(k, s)))
    ensures var s' := Run(Next(s, WriteBegin(block)), rest);
            s'.p == PIdle && s'.produced == s.produced + block[..Min(|block|, Free(k, s))]
  {
    WriteRuns(k, s, block, rest);
  }

  /** It gives up at its check exactly when the ring was full. */
  lemma WriteGivesUpIff<T>(k: nat, s: State<T>, block: seq<T>, rest: seq<Action<T>>)
    requires Inv(k, s) && s.p.PIdle? && block != [] && Producers(rest) == [WriteCheck]
    ensures var s' := Run(Next(s, WriteBegin(block)), rest);
            s'.produced == s.produced && (s'.p == PIdle <==> |s.produced| - |s.consumed| == Pow2(k))
  {
    hide Inv;
    InvCounts(k, s);
    var m := Min(|block|, Free(k, s));
    assert [WriteCheck] <= WriteScript<T>(m);
    WriteRuns(k, s, block, rest);
    assert s.produced + block[..0] == s.produced;
  }

  // ---- Zero-copy slots ----

  function SlotScript<T>(room: bool, x: T): seq<Action<T>> {
    if room then [AcquireCheck, SlotWrite(x), Commit] else [AcquireCheck]
  }

  ghost predicate SlotAt<T>(s0: State<T>, room: bool, x: T, j: nat, s: State<T>)
    requires Shape(s)
  {
    if j == 0 then s.p == PAcquiring(s0.r, |s0.consumed|) && s.produced == s0.produced
    else if !room then s.p == PIdle && s.produced == s0.produced
    else if j < 3 then
      && s.p == PHolding(|s0.consumed|) && s.produced == s0.produced
      && (j == 2 ==> And(s.w, |s.buf| - 1) < |s.buf| && s.buf[And(s.w, |s.buf| - 1)] == x)
    else s.p == PIdle && s.produced == s0.produced + [x]
  }

  lemma SlotStep<T>(k: nat, s0: State<T>, x: T, j: nat, s: State<T>)
    requires Inv(k, s0) && Inv(k, s)
    requires var room := Free(k, s0) > 0; j < |SlotScript(room, x)| && SlotAt(s0, room, x, j, s)
    ensures var room := Free(k, s0) > 0;
            var s' := Next(s, SlotScript(room, x)[j]); Shape(s') && SlotAt(s0, room, x, j + 1, s')
  {
    hide ConsumerNext;
    hide ConsumerOk;
    hide Contents;
    hide Sub16;
    hide And;
    SizeBelowWord(k);
    StepKeepsInv(k, s, SlotScript(Free(k, s0) > 0, x)[j]);
    if j == 0 {
      FreeSpace(Pow2(k), |s0.produced|, |s0.consumed|);
    }
    MaskOfPointer(|s.produced|, k);
  }

  lemma {:induction false} SlotRuns<T>(k: nat, s: State<T>, x: T, rest: seq<Action<T>>)
    requires Inv(k, s) && s.p.PIdle? && Producers(rest) <= SlotScript(Free(k, s) > 0, x)
    ensures var s' := Run(Next(s, AcquireBegin), rest);
            Inv(k, s') && Shape(s') && SlotAt(s, Free(k, s) > 0, x, |Producers(rest)|, s')
    decreases |rest|
  {
    hide Next;
    hide Inv;
    hide SlotAt;
    hide SlotScript;
    InvCounts(k, s);
    if rest == [] {
      SlotLoads(k, s, x);
    } else {
      var front, last := rest[..|rest| - 1], rest[|rest| - 1];
      SlotRuns(k, s, x, front);
      var before := Run(Next(s, AcquireBegin), front);
      InvCounts(k, before);
      StepKeepsInv(k, before, last);
      InvCounts(k, Next(before, last));
      if IsProducers(last) {
        SlotStep(k, s, x, |Producers(front)|, before);
        assert last == Producers(rest)[|Producers(front)|];
      } else {
        SlotWaits(s, Free(k, s) > 0, x, |Producers(front)|, before, last);
      }
    }
  }

  lemma SlotLoads<T>(k: nat, s: State<T>, x: T)
    requires Inv(k, s) && s.p.PIdle?
    ensures var s' := Next(s, AcquireBegin); Inv(k, s') && Shape(s') && SlotAt(s, Free(k, s) > 0, x, 0, s')
  {
    StepKeepsInv(k, s, AcquireBegin);
  }

  lemma SlotWaits<T>(s0: State<T>, room: bool, x: T, j: nat, s: State<T>, a: Action<T>)
    requires Shape(s) && SlotAt(s0, room, x, j, s) && !IsProducers(a) && Shape(Next(s, a))
    ensures SlotAt(s0, room, x, j, Next(s, a))
  {
    hide Next;
    ConsumerLeaves(s, a);
  }

  /** A slot is handed out exactly when a cell was free, and committing publishes what was written into it. */
  lemma SlotDelivers<T>(k: nat, s: State<T>, x: T, rest: seq<Action<T>>)
    requires Inv(k, s) && s.p.PIdle? && Producers(rest) == SlotScript(Free(k, s) > 0, x)
    ensures var s' := Run(Next(s, AcquireBegin), rest);
            s'.p == PIdle && s'.produced == if |s.produced| - |s.consumed| < Pow2(k) then s.produced + [x] else s.produced
  {
    SlotRuns(k, s, x, rest);
  }

  /** And not otherwise: right after the check the producer holds a slot or has given up. */
  lemma SlotGivenIff<T>(k: nat, s: State<T>, x: T, rest: seq<Action<T>>)
    requires Inv(k, s) && s.p.PIdle? && Producers(rest) == [AcquireCheck]
    ensures var s' := Run(Next(s, AcquireBegin), rest);
            (s'.p.PHolding? <==> |s.produced| - |s.consumed| < Pow2(k)) && (s'.p.PIdle? <==> !s'.p.PHolding?)
  {
    assert [AcquireCheck] <= SlotScript(Free(k, s) > 0, x);
    SlotRuns(k, s, x, rest);
  }

  function PeekScript<T>(any: bool): seq<Action<T>> {
    if any then [PeekCheck, Release] else [PeekCheck]
  }

  ghost predicate PeekAt<T>(s0: State<T>, j: nat, s: State<T>)
    requires |s0.consumed| <= |s0.produced|
  {
    var any := |s0.consumed| < |s0.produced|;
    && s0.produced <= s.produced
    && if j == 0 then s.c == CPeeking(s0.w, |s0.produced|) && s.consumed == s0.consumed
       else if !any then s.c == CIdle && s.consumed == s0.consumed
       else if j == 1 then s.c == CHolding(|s0.produced|) && s.consumed == s0.consumed
       else s.c == CIdle && s.consumed == s0.consumed + [s0.produced[|s0.consumed|]]
  }

  lemma PeekStep<T>(k: nat, s0: State<T>, j: nat, s: State<T>)
    requires Inv(k, s0) && Inv(k, s)
    requires j < |PeekScript<T>(|s0.consumed| < |s0.produced|)| && PeekAt(s0, j, s)
    ensures PeekAt(s0, j + 1, Next(s, PeekScript(|s0.consumed| < |s0.produced|)[j]))
  {
    hide ProducerNext;
    hide ProducerOk;
    hide Contents;
    hide And;
    SizeBelowWord(k);
    if j == 0 {
      if |s0.consumed| < |s0.produced| { ModDistinct(|s0.consumed|, |s0.produced|, WORD); }
    } else {
      PeekShowsOldest(k, s);
    }
  }

  lemma {:induction false} PeekRuns<T>(k: nat, s: State<T>, rest: seq<Action<T>>)
    requires Inv(k, s) && s.c.CIdle? && Consumers(rest) <= PeekScript(|s.consumed| < |s.produced|)
    ensures var s' := Run(Next(s, PeekBegin), rest); Inv(k, s') && PeekAt(s, |Consumers(rest)|, s')
    decreases |rest|
  {
    hide Next;
    hide Inv;
    hide PeekAt;
    hide PeekScript;
    InvCounts(k, s);
    if rest == [] {
      PeekLoads(k, s);
    } else {
      var front, last := rest[..|rest| - 1], rest[|rest| - 1];
      PeekRuns(k, s, front);
      var before := Run(Next(s, PeekBegin), front);
      InvCounts(k, before);
      StepKeepsInv(k, before, last);
      if IsProducers(last) {
        PeekWaits(s, |Consumers(front)|, before, last);
      } else {
        PeekStep(k, s, |Consumers(front)|, before);
        assert last == Consumers(rest)[|Consumers(front)|];
      }
    }
  }

  lemma PeekLoads<T>(k: nat, s: State<T>)
    requires Inv(k, s) && s.c.CIdle?
    ensures var s' := Next(s, PeekBegin); Inv(k, s') && PeekAt(s, 0, s')
  {
    StepKeepsInv(k, s, PeekBegin);
  }

  lemma PeekWaits<T>(s0: State<T>, j: nat, s: State<T>, a: Action<T>)
    requires |s0.consumed| <= |s0.produced| && PeekAt(s0, j, s) && Shape(s) && IsProducers(a)
    ensures PeekAt(s0, j, Next(s, a))
  {
    hide Next;
    ProducerLeaves(s, a);
  }

  /** A peek gives the oldest element exactly when there is one, and releasing it consumes just that. */
  lemma PeekDelivers<T>(k: nat, s: State<T>, rest: seq<Action<T>>)
    requires Inv(k, s) && s.c.CIdle? && Consumers(rest) == PeekScript(|s.consumed| < |s.produced|)
    ensures var s' := Run(Next(s, PeekBegin), rest);
            && s'.c == CIdle
            && s'.consumed == if |s.consumed| < |s.produced| then s.consumed + [s.produced[|s.consumed|]] else s.consumed
  {
    PeekRuns(k, s, rest);
  }

  lemma PeekGivenIff<T>(k: nat, s: State<T>, rest: seq<Action<T>>)
    requires Inv(k, s) && s.c.CIdle? && Consumers(rest) == [PeekCheck]
    ensures var s' := Run(Next(s, PeekBegin), rest);
            (s'.c.CHolding? <==> |s.consumed| < |s.produced|) && (s'.c.CIdle? <==> !s'.c.CHolding?)
  {
    assert [PeekCheck] <= PeekScript<T>(|s.consumed| < |s.produced|);
    PeekRuns(k, s, rest);
  }
}
