/** The lock-free ring with one producer and one consumer, as single load, copy and store
    steps on 16-bit free-running pointers, and its refinement of an unbounded queue. */
module SpscRing {
  import opened Bits

  const WORD: nat := 0x1_0000

  /** Subtraction and addition of uint16_t values. */
  function Sub16(a: nat, b: nat): nat
    requires a < WORD && b < WORD
  {
    (a + WORD - b) % WORD
  }

  function Add16(a: nat, n: nat): nat {
    (a + n) % WORD
  }

  /** Where element i of a block that starts at pointer p lies: linear up to the end of the
      array, then from its start. */
  function Cell(p: nat, i: nat, size: nat): int
    requires size > 0
  {
    var first := And(p, size - 1);
    if i < size - first then first + i else i - (size - first)
  }

  /** The producer between two of its steps. `seen` is a history value: how many elements the
      consumer had released when the producer read r_ptr. */
  datatype Producer<T> =
    | PIdle
    | PLoaded(block: seq<T>, rd: nat, seen: nat)     // r_ptr read
    | PCopying(block: seq<T>, done: nat, seen: nat)  // space checked, block clipped to it
    | PAcquiring(rd: nat, seen: nat)                 // zero-copy write: r_ptr read
    | PHolding(seen: nat)                            // zero-copy write: slot handed out

  /** The consumer between two of its steps; `seen` counts the elements published when it read w_ptr. */
  datatype Consumer<T> =
    | CIdle
    | CLoaded(want: nat, wr: nat, seen: nat)
    | CCopying(want: nat, out: seq<T>, seen: nat)
    | CPeeking(wr: nat, seen: nat)
    | CHolding(seen: nat)

  /** Shared ring, both threads, and the history of published and released elements. */
  datatype State<T> = State(buf: seq<T>, w: nat, r: nat, p: Producer<T>, c: Consumer<T>,
                            produced: seq<T>, consumed: seq<T>)

  datatype Action<T> =
    | WriteBegin(block: seq<T>) | WriteCheck | WriteCopy | WriteStore
    | AcquireBegin | AcquireCheck | SlotWrite(value: T) | Commit
    | ReadBegin(want: nat) | ReadCheck | ReadCopy | ReadStore
    | PeekBegin | PeekCheck | Release

  ghost predicate Shape<T>(s: State<T>) {
    |s.buf| > 0 && s.w < WORD && s.r < WORD
  }

  predicate IsProducers<T>(a: Action<T>) {
    a.WriteBegin? || a.WriteCheck? || a.WriteCopy? || a.WriteStore? || a.AcquireBegin? || a.AcquireCheck? ||
    a.SlotWrite? || a.Commit?
  }

  /** fifo_write_data, fifo_write_block, fifo_uni_write_block, fifo_uni_write_acquire and _commit. */
  function ProducerNext<T>(s: State<T>, a: Action<T>): State<T>
    requires Shape(s)
  {
    var size := |s.buf|;
    match (a, s.p)
    case (WriteBegin(block), PIdle) =>
      if block == [] then s else s.(p := PLoaded(block, s.r, |s.consumed|))
    case (WriteCheck, PLoaded(block, rd, seen)) =>
      if rd >= WORD then s else
      var free := (size + WORD - Sub16(s.w, rd)) % WORD;
      if free == 0 then s.(p := PIdle)
      else s.(p := PCopying(if |block| > free then block[..free] else block, 0, seen))
    case (WriteCopy, PCopying(block, done, seen)) =>
      if done < |block| && 0 <= Cell(s.w, done, size) < size then
        s.(buf := s.buf[Cell(s.w, done, size) := block[done]], p := PCopying(block, done + 1, seen))
      else s
    case (WriteStore, PCopying(block, done, _)) =>
      if done == |block| then s.(w := Add16(s.w, |block|), p := PIdle, produced := s.produced + block) else s
    case (AcquireBegin, PIdle) => s.(p := PAcquiring(s.r, |s.consumed|))
    case (AcquireCheck, PAcquiring(rd, seen)) =>
      if rd >= WORD then s else
      if Sub16(s.w, rd) >= size then s.(p := PIdle) else s.(p := PHolding(seen))
    case (SlotWrite(x), PHolding(_)) =>
      if And(s.w, size - 1) < size then s.(buf := s.buf[And(s.w, size - 1) := x]) else s
    case (Commit, PHolding(_)) =>
      if And(s.w, size - 1) < size then
        s.(w := Add16(s.w, 1), p := PIdle, produced := s.produced + [s.buf[And(s.w, size - 1)]])
      else s
    case _ => s
  }

  /** fifo_read_data, fifo_read_block, fifo_uni_read_block, fifo_uni_read_peek and _release. */
  function ConsumerNext<T>(s: State<T>, a: Action<T>): State<T>
    requires Shape(s)
  {
    var size := |s.buf|;
    match (a, s.c)
    case (ReadBegin(want), CIdle) =>
      if want == 0 then s else s.(c := CLoaded(want, s.w, |s.produced|))
    case (ReadCheck, CLoaded(want, wr, seen)) =>
      if wr >= WORD then s else
      var count := Sub16(wr, s.r);
      if count == 0 then s.(c := CIdle)
      else s.(c := CCopying(if want > count then count else want, [], seen))
    case (ReadCopy, CCopying(want, out, seen)) =>
      if |out| < want && 0 <= Cell(s.r, |out|, size) < size then
        s.(c := CCopying(want, out + [s.buf[Cell(s.r, |out|, size)]], seen))
      else s
    case (ReadStore, CCopying(want, out, _)) =>
      if |out| == want then s.(r := Add16(s.r, want), c := CIdle, consumed := s.consumed + out) else s
    case (PeekBegin, CIdle) => s.(c := CPeeking(s.w, |s.produced|))
    case (PeekCheck, CPeeking(wr, seen)) =>
      if s.r == wr then s.(c := CIdle) else s.(c := CHolding(seen))
    case (Release, CHolding(_)) =>
      if And(s.r, size - 1) < size then
        s.(r := Add16(s.r, 1), c := CIdle, consumed := s.consumed + [s.buf[And(s.r, size - 1)]])
      else s
    case _ => s
  }

  /** One atomic step of either thread; an action that is not the thread's next one changes nothing. */
  function Next<T>(s: State<T>, a: Action<T>): State<T>
    requires Shape(s)
  {
    if IsProducers(a) then ProducerNext(s, a) else ConsumerNext(s, a)
  }

  // ---- Free-running pointers name the right cells ----

  lemma Sub16Exact(a: nat, b: nat)
    requires b <= a < b + WORD
    ensures Sub16(a % WORD, b % WORD) == a - b
  {
  }

  lemma Add16Exact(a: nat, n: nat)
    ensures Add16(a % WORD, n) == (a + n) % WORD
  {
  }

  /** The size divides 2^16, so masking a wrapped pointer still gives the position modulo the size. */
  lemma MaskOfPointer(n: nat, k: nat)
    requires k <= 15
    ensures And(n % WORD, Pow2(k) - 1) == n % Pow2(k)
  {
    assert Pow2(16) == WORD by { Pow2Add(8, 8); assert Pow2(8) == 256; }
    LowIsMod(n, 16);
    AndLowMask(n % WORD, k);
    LowOfLow(n, k, 16);
    LowIsMod(n, k);
  }

  lemma ModAdd(n: nat, i: nat, m: nat)
    requires m > 0 && i < m
    ensures (n + i) % m == if n % m + i < m then n % m + i else n % m + i - m
  {
    var q, x := n / m, n % m;
    if x + i < m {
      DivModUnique(n + i, m, q, x + i);
    } else {
      assert n + i == m * (q + 1) + (x + i - m);
      DivModUnique(n + i, m, q + 1, x + i - m);
    }
  }

  /** The split copy walks the ring in order. */
  lemma CellIsPosition(n: nat, i: nat, k: nat)
    requires k <= 15 && i < Pow2(k)
    ensures Cell(n % WORD, i, Pow2(k)) == (n + i) % Pow2(k)
  {
    MaskOfPointer(n, k);
    ModAdd(n, i, Pow2(k));
  }

  lemma ModDistinct(i: nat, j: nat, m: nat)
    requires m > 0 && i < j < i + m
    ensures i % m != j % m
  {
    ModAdd(i, j - i, m);
  }

  // ---- The invariant ----

  ghost predicate Pointers<T>(k: nat, s: State<T>) {
    var published, released := |s.produced|, |s.consumed|;
    && k <= 15 && |s.buf| == Pow2(k)
    && released <= published <= released + Pow2(k)
    && s.w == published % WORD && s.r == released % WORD
  }

  ghost predicate Contents<T>(k: nat, s: State<T>)
    requires |s.buf| == Pow2(k)
  {
    && s.consumed <= s.produced
    && forall i :: |s.consumed| <= i < |s.produced| ==> s.buf[i % Pow2(k)] == s.produced[i]
  }

  ghost predicate ProducerOk<T>(k: nat, s: State<T>)
    requires |s.buf| == Pow2(k)
  {
    var published, released, size := |s.produced|, |s.consumed|, Pow2(k);
    match s.p
    case PIdle => true
    case PLoaded(block, rd, seen) => block != [] && rd == seen % WORD && seen <= released && published <= seen + size
    case PCopying(block, done, seen) =>
      && done <= |block| && 0 < |block| && seen <= released && published + |block| <= seen + size
      && forall i :: 0 <= i < done ==> s.buf[(published + i) % size] == block[i]
    case PAcquiring(rd, seen) => rd == seen % WORD && seen <= released && published <= seen + size
    case PHolding(seen) => seen <= released && published < seen + size
  }

  ghost predicate ConsumerOk<T>(s: State<T>) {
    var published, released := |s.produced|, |s.consumed|;
    match s.c
    case CIdle => true
    case CLoaded(want, wr, seen) => want > 0 && wr == seen % WORD && released <= seen <= published
    case CCopying(want, out, seen) =>
      0 < want && |out| <= want && released + want <= seen <= published && out == s.produced[released..released + |out|]
    case CPeeking(wr, seen) => wr == seen % WORD && released <= seen <= published
    case CHolding(seen) => released < seen <= published
  }

  ghost predicate Inv<T>(k: nat, s: State<T>) {
    Pointers(k, s) && Contents(k, s) && ProducerOk(k, s) && ConsumerOk(s)
  }

  function Init<T>(buf: seq<T>): State<T> {
    State(buf, 0, 0, PIdle, CIdle, [], [])
  }

  lemma InitInv<T>(k: nat, buf: seq<T>)
    requires k <= 15 && |buf| == Pow2(k)
    ensures Inv(k, Init(buf))
  {
  }

  lemma SizeBelowWord(k: nat)
    requires k <= 15
    ensures 2 * Pow2(k) <= WORD
  {
    Pow2Mono(k, 15);
    assert Pow2(15) == 0x8000 by { Pow2Add(8, 7); assert Pow2(8) == 256 && Pow2(7) == 128; }
  }

  /** The free space the producer computes is what was free when it read r_ptr. */
  lemma FreeSpace(size: nat, published: nat, seen: nat)
    requires 0 < size && 2 * size <= WORD && seen <= published <= seen + size
    ensures Sub16(published % WORD, seen % WORD) == published - seen
    ensures (size + WORD - Sub16(published % WORD, seen % WORD)) % WORD == seen + size - published
  {
    Sub16Exact(published, seen);
  }

  /** The loads and checks of the producer. */
  lemma ProducerChecks<T>(k: nat, s: State<T>, a: Action<T>)
    requires Inv(k, s) && (a.WriteBegin? || a.WriteCheck? || a.AcquireBegin? || a.AcquireCheck?)
    ensures Inv(k, Next(s, a))
  {
    hide Contents;
    hide ConsumerOk;
    hide ConsumerNext;
    hide Sub16;
    SizeBelowWord(k);
    if s.p.PLoaded? || s.p.PAcquiring? {
      FreeSpace(|s.buf|, |s.produced|, s.p.seen);
    }
    SameContents(k, s, Next(s, a));
    ConsumerSurvivesPublish(s, Next(s, a));
  }

  /** A write into the free part of the ring leaves every published element alone. */
  lemma FreeCell<T>(k: nat, s: State<T>, i: nat, x: T)
    requires Pointers(k, s) && Contents(k, s) && |s.produced| + i < |s.consumed| + Pow2(k)
    ensures Contents(k, s.(buf := s.buf[(|s.produced| + i) % Pow2(k) := x]))
  {
    var n, m := |s.produced| + i, Pow2(k);
    forall j | |s.consumed| <= j < |s.produced|
      ensures s.buf[n % m := x][j % m] == s.produced[j]
    {
      ModDistinct(j, n, m);
    }
  }

  lemma ProducerCopies<T>(k: nat, s: State<T>)
    requires Inv(k, s)
    ensures Inv(k, Next(s, WriteCopy))
  {
    hide ConsumerNext;
    hide ConsumerOk;
    hide Contents;
    hide Cell;
    if s.p.PCopying? && s.p.done < |s.p.block| {
      var n, m, done := |s.produced|, Pow2(k), s.p.done;
      CellIsPosition(n, done, k);
      FreeCell(k, s, done, s.p.block[done]);
      var s' := Next(s, WriteCopy);
      assert s'.buf == s.buf[(n + done) % m := s.p.block[done]];
      SameContents(k, s.(buf := s'.buf), s');
      ConsumerSurvivesPublish(s, s');
      CopiedSoFar(s.buf, n, m, s.p.block, done);
    }
  }

  /** The copied part of the block grows by one cell. */
  lemma CopiedSoFar<T>(buf: seq<T>, n: nat, m: nat, block: seq<T>, done: nat)
    requires 0 < m == |buf| && done < |block| <= m
    requires forall i :: 0 <= i < done ==> buf[(n + i) % m] == block[i]
    ensures var buf' := buf[(n + done) % m := block[done]];
            forall i :: 0 <= i < done + 1 ==> buf'[(n + i) % m] == block[i]
  {
    var buf' := buf[(n + done) % m := block[done]];
    forall i | 0 <= i < done + 1
      ensures buf'[(n + i) % m] == block[i]
    {
      if i < done { ModDistinct(n + i, n + done, m); }
    }
  }

  lemma ProducerFillsSlot<T>(k: nat, s: State<T>, x: T)
    requires Inv(k, s)
    ensures Inv(k, Next(s, SlotWrite(x)))
  {
    if s.p.PHolding? {
      MaskOfPointer(|s.produced|, k);
      FreeCell(k, s, 0, x);
    }
  }

  /** Publishing n elements that already lie in the cells behind the last published one. */
  lemma PublishKeepsContents<T>(k: nat, s: State<T>, block: seq<T>)
    requires Pointers(k, s) && Contents(k, s)
    requires forall i :: 0 <= i < |block| ==> s.buf[(|s.produced| + i) % Pow2(k)] == block[i]
    ensures Contents(k, s.(produced := s.produced + block))
  {
    forall j | |s.consumed| <= j < |s.produced + block|
      ensures s.buf[j % Pow2(k)] == (s.produced + block)[j]
    {
      if j >= |s.produced| {
        assert s.buf[(|s.produced| + (j - |s.produced|)) % Pow2(k)] == block[j - |s.produced|];
      }
    }
  }

  /** Publishing: pointer and history advance together, the consumer's view only grows. */
  lemma PublishKeepsInv<T>(k: nat, s: State<T>, block: seq<T>, seen: nat)
    requires Inv(k, s) && seen <= |s.consumed| && |s.produced| + |block| <= seen + Pow2(k)
    requires Contents(k, s.(produced := s.produced + block))
    ensures Inv(k, s.(w := Add16(s.w, |block|), p := PIdle, produced := s.produced + block))
  {
    hide Contents;
    hide ConsumerOk;
    var s' := s.(w := Add16(s.w, |block|), p := PIdle, produced := s.produced + block);
    Add16Exact(|s.produced|, |block|);
    ConsumerSurvivesPublish(s, s');
    SameContents(k, s.(produced := s.produced + block), s');
  }

  lemma ProducerPublishes<T>(k: nat, s: State<T>, a: Action<T>)
    requires Inv(k, s) && (a.WriteStore? || a.Commit?)
    ensures Inv(k, Next(s, a))
  {
    hide Contents;
    hide ConsumerOk;
    hide Pointers;
    if a.Commit? && s.p.PHolding? {
      CommitKeepsContents(k, s);
      PublishKeepsInv(k, s, [s.buf[And(s.w, |s.buf| - 1)]], s.p.seen);
    } else if a.WriteStore? && s.p.PCopying? && s.p.done == |s.p.block| {
      PublishKeepsContents(k, s, s.p.block);
      PublishKeepsInv(k, s, s.p.block, s.p.seen);
    }
  }

  lemma SameContents<T>(k: nat, s: State<T>, s': State<T>)
    requires |s.buf| == Pow2(k)
    requires s'.buf == s.buf && s'.produced == s.produced && s'.consumed == s.consumed
    ensures Contents(k, s) == Contents(k, s')
  {
  }

  lemma CommitKeepsContents<T>(k: nat, s: State<T>)
    requires Pointers(k, s) && Contents(k, s)
    ensures And(s.w, |s.buf| - 1) < |s.buf|
    ensures Contents(k, s.(produced := s.produced + [s.buf[And(s.w, |s.buf| - 1)]]))
  {
    MaskOfPointer(|s.produced|, k);
    PublishKeepsContents(k, s, [s.buf[|s.produced| % Pow2(k)]]);
  }

  lemma ConsumerSurvivesPublish<T>(s: State<T>, s': State<T>)
    requires ConsumerOk(s) && s'.c == s.c && s'.consumed == s.consumed && s.produced <= s'.produced
    ensures ConsumerOk(s')
  {
    if s.c.CCopying? {
      var a, b := |s.consumed|, |s.consumed| + |s.c.out|;
      assert s'.produced[a..b] == s.produced[a..b];
    }
  }

  /** Reading copies the next element the consumer has not released. */
  lemma NextElement<T>(k: nat, s: State<T>, i: nat)
    requires Pointers(k, s) && Contents(k, s) && |s.consumed| + i < |s.produced| && i < Pow2(k)
    ensures 0 <= Cell(s.r, i, |s.buf|) < |s.buf|
    ensures s.buf[Cell(s.r, i, |s.buf|)] == s.produced[|s.consumed| + i]
  {
    CellIsPosition(|s.consumed|, i, k);
  }

  lemma ConsumerCopies<T>(k: nat, s: State<T>)
    requires Inv(k, s)
    ensures Inv(k, Next(s, ReadCopy))
  {
    hide ProducerNext;
    hide Contents;
    hide ProducerOk;
    hide Cell;
    if s.c.CCopying? && |s.c.out| < s.c.want {
      var n, i := |s.consumed|, |s.c.out|;
      NextElement(k, s, i);
      assert s.produced[n..n + i + 1] == s.produced[n..n + i] + [s.produced[n + i]];
    }
    SameContents(k, s, Next(s, ReadCopy));
    SameProducer(k, s, Next(s, ReadCopy));
  }

  /** The loads and checks of the consumer. */
  lemma ConsumerChecks<T>(k: nat, s: State<T>, a: Action<T>)
    requires Inv(k, s) && (a.ReadBegin? || a.ReadCheck? || a.PeekBegin? || a.PeekCheck?)
    ensures Inv(k, Next(s, a))
  {
    hide ProducerNext;
    hide Contents;
    hide ProducerOk;
    hide Cell;
    hide Sub16;
    SizeBelowWord(k);
    if s.c.CLoaded? || s.c.CPeeking? {
      Sub16Exact(s.c.seen, |s.consumed|);
    }
    SameContents(k, s, Next(s, a));
    SameProducer(k, s, Next(s, a));
  }

  lemma SameProducer<T>(k: nat, s: State<T>, s': State<T>)
    requires |s.buf| == Pow2(k) && ProducerOk(k, s)
    requires s'.buf == s.buf && s'.p == s.p && s'.produced == s.produced && |s'.consumed| >= |s.consumed|
    ensures ProducerOk(k, s')
  {
  }

  /** Releasing: pointer and history advance together, the producer's view of free space only grows. */
  lemma ReleaseKeepsInv<T>(k: nat, s: State<T>, out: seq<T>)
    requires Inv(k, s) && |s.consumed| + |out| <= |s.produced|
    requires out == s.produced[|s.consumed|..|s.consumed| + |out|]
    ensures Inv(k, s.(r := Add16(s.r, |out|), c := CIdle, consumed := s.consumed + out))
  {
    hide ProducerOk;
    var s' := s.(r := Add16(s.r, |out|), c := CIdle, consumed := s.consumed + out);
    assert s'.consumed == s.produced[..|s'.consumed|];
    Add16Exact(|s.consumed|, |out|);
    SameProducer(k, s, s');
  }

  lemma ConsumerReleases<T>(k: nat, s: State<T>, a: Action<T>)
    requires Inv(k, s) && (a.ReadStore? || a.Release?)
    ensures Inv(k, Next(s, a))
  {
    hide ProducerNext;
    hide ProducerOk;
    hide Contents;
    hide Pointers;
    if a.Release? && s.c.CHolding? {
      PeekShowsOldest(k, s);
      ReleaseKeepsInv(k, s, [s.produced[|s.consumed|]]);
    } else if a.ReadStore? && s.c.CCopying? && |s.c.out| == s.c.want {
      ReleaseKeepsInv(k, s, s.c.out);
    }
  }

  /** Every step of every interleaving keeps the invariant. */
  lemma StepKeepsInv<T>(k: nat, s: State<T>, a: Action<T>)
    requires Inv(k, s)
    ensures Inv(k, Next(s, a))
  {
    if a.WriteBegin? || a.WriteCheck? || a.AcquireBegin? || a.AcquireCheck? {
      ProducerChecks(k, s, a);
    } else if a.WriteCopy? {
      ProducerCopies(k, s);
    } else if a.SlotWrite? {
      ProducerFillsSlot(k, s, a.value);
    } else if a.WriteStore? || a.Commit? {
      ProducerPublishes(k, s, a);
    } else if a.ReadStore? || a.Release? {
      ConsumerReleases(k, s, a);
    } else if a.ReadCopy? {
      ConsumerCopies(k, s);
    } else {
      ConsumerChecks(k, s, a);
    }
  }

  // ---- Whole runs ----

  ghost function Run<T>(s: State<T>, run: seq<Action<T>>): State<T>
  {
    if run == [] then s
    else
      var before := Run(s, run[..|run| - 1]);
      if Shape(before) then Next(before, run[|run| - 1]) else before
  }

  lemma {:induction false} RunKeepsInv<T>(k: nat, s: State<T>, run: seq<Action<T>>)
    requires Inv(k, s)
    ensures Inv(k, Run(s, run))
  {
    if run != [] {
      RunKeepsInv(k, s, run[..|run| - 1]);
      StepKeepsInv(k, Run(s, run[..|run| - 1]), run[|run| - 1]);
    }
  }

  /** Cells the producer may be writing, as positions in the stream. */
  function Writing<T>(s: State<T>): (nat, nat) {
    match s.p
    case PCopying(block, _, _) => (|s.produced|, |s.produced| + |block|)
    case PHolding(_) => (|s.produced|, |s.produced| + 1)
    case _ => (0, 0)
  }

  /** Cells the consumer may be reading, as positions in the stream. */
  function Reading<T>(s: State<T>): (nat, nat) {
    match s.c
    case CCopying(want, _, _) => (|s.consumed|, |s.consumed| + want)
    case CHolding(_) => (|s.consumed|, |s.consumed| + 1)
    case _ => (0, 0)
  }

  /** Refinement of an unbounded queue over every interleaving, across pointer wrap-around: what is
      consumed is a prefix of what is produced, at most `size` elements are in flight, and no cell is
      being written while it is being read. */
  lemma RingRefinesQueue<T>(k: nat, buf: seq<T>, run: seq<Action<T>>)
    requires k <= 15 && |buf| == Pow2(k)
    ensures var s := Run(Init(buf), run);
            && s.consumed <= s.produced
            && |s.produced| - |s.consumed| <= |buf|
            && |s.buf| == |buf|
            && forall i, j :: Writing(s).0 <= i < Writing(s).1 && Reading(s).0 <= j < Reading(s).1 ==>
                 i % Pow2(k) != j % Pow2(k)
  {
    InitInv(k, buf);
    RunKeepsInv(k, Init(buf), run);
    var s := Run(Init(buf), run);
    forall i, j | Writing(s).0 <= i < Writing(s).1 && Reading(s).0 <= j < Reading(s).1
      ensures i % Pow2(k) != j % Pow2(k)
    {
      ModDistinct(j, i, Pow2(k));
    }
  }

  /** A held read slot shows, for as long as it is held, the oldest unconsumed element. */
  lemma PeekShowsOldest<T>(k: nat, s: State<T>)
    requires Inv(k, s) && s.c.CHolding?
    ensures |s.consumed| < |s.produced|
    ensures And(s.r, |s.buf| - 1) < |s.buf| && s.buf[And(s.r, |s.buf| - 1)] == s.produced[|s.consumed|]
  {
    MaskOfPointer(|s.consumed|, k);
  }
}
