/** The kernel's event groups: event bits and an unordered list of waiting tasks, each with the
    bits it waits for and its options packed into one word. A word is the set of the positions
    of its one bits, so union, intersection and difference are |, & and & ~. */
module EventGroup {

  type Word = set<nat>

  const CLEAR_ON_EXIT: Word := {24}
  const UNBLOCKED: Word := {25}
  const WAIT_ALL: Word := {26}
  const IN_USE: Word := {31}
  const CONTROL: Word := {24, 25, 26, 27, 28, 29, 30, 31}

  /** A blocked task and the value of its event list item. */
  datatype Waiter = Waiter(task: nat, word: Word)

  /** A task taken off the list by a set, with the value left for it. */
  datatype Woken = Woken(task: nat, value: Word)

  datatype Group = Group(bits: Word, waiters: seq<Waiter>)

  /** prvTestWaitCondition. */
  predicate Met(bits: Word, want: Word, all: bool) {
    if all then bits * want == want else bits * want != {}
  }

  function Pack(want: Word, clear: bool, all: bool): Word {
    want + (if clear then CLEAR_ON_EXIT else {}) + (if all then WAIT_ALL else {}) + IN_USE
  }

  function Want(w: Waiter): Word { w.word - CONTROL }

  predicate All(w: Waiter) { w.word * CONTROL * WAIT_ALL != {} }

  predicate Clears(w: Waiter) { w.word * CONTROL * CLEAR_ON_EXIT != {} }

  predicate Satisfied(bits: Word, w: Waiter) { Met(bits, Want(w), All(w)) }

  /** Packing and unpacking the options. */
  lemma PackRoundTrip(task: nat, want: Word, clear: bool, all: bool)
    requires want !! CONTROL
    ensures var w := Waiter(task, Pack(want, clear, all)); Want(w) == want && All(w) == all && Clears(w) == clear
    ensures Pack(want, clear, all) * CONTROL >= IN_USE
  {
    var word := Pack(want, clear, all);
    assert word * CONTROL * WAIT_ALL == if all then WAIT_ALL else {};
    assert word * CONTROL * CLEAR_ON_EXIT == if clear then CLEAR_ON_EXIT else {};
    assert 26 in WAIT_ALL && 24 in CLEAR_ON_EXIT;
  }

  lemma MetAll(bits: Word, want: Word)
    ensures Met(bits, want, true) <==> want <= bits
  {
    assert want <= bits ==> bits * want == want;
    assert bits * want <= bits;
  }

  /** Taking bits away never meets a condition. */
  lemma FewerBits(bits: Word, gone: Word, want: Word, all: bool)
    requires Met(bits - gone, want, all)
    ensures Met(bits, want, all)
  {
    if all {
      forall b | b in want ensures b in bits { assert b in (bits - gone) * want; }
    } else {
      var b :| b in (bits - gone) * want;
      assert b in bits * want;
    }
  }

  // ---- Setting bits ----

  function Unsatisfied(bits: Word, ws: seq<Waiter>): seq<Waiter> {
    if ws == [] then []
    else Unsatisfied(bits, ws[..|ws| - 1]) + if Satisfied(bits, ws[|ws| - 1]) then [] else [ws[|ws| - 1]]
  }

  function WokenBy(bits: Word, ws: seq<Waiter>): seq<Woken> {
    if ws == [] then []
    else WokenBy(bits, ws[..|ws| - 1]) +
         if Satisfied(bits, ws[|ws| - 1]) then [Woken(ws[|ws| - 1].task, bits + UNBLOCKED)] else []
  }

  predicate Contributes(bits: Word, w: Waiter) {
    Satisfied(bits, w) && Clears(w)
  }

  function ClearMask(bits: Word, ws: seq<Waiter>): Word {
    if ws == [] then {}
    else ClearMask(bits, ws[..|ws| - 1]) + if Contributes(bits, ws[|ws| - 1]) then Want(ws[|ws| - 1]) else {}
  }

  /** xEventGroupSetBits. */
  function SetOn(g: Group, b: Word): Group {
    var combined := g.bits + b;
    Group(combined - ClearMask(combined, g.waiters), Unsatisfied(combined, g.waiters))
  }

  /** No task is left waiting for something that is there. */
  ghost predicate Settled(g: Group) {
    forall i :: 0 <= i < |g.waiters| ==> !Satisfied(g.bits, g.waiters[i])
  }

  lemma {:induction false} UnsatisfiedAre(bits: Word, ws: seq<Waiter>, w: Waiter)
    ensures w in Unsatisfied(bits, ws) <==> w in ws && !Satisfied(bits, w)
  {
    hide Satisfied;
    if ws != [] {
      UnsatisfiedAre(bits, ws[..|ws| - 1], w);
      assert ws == ws[..|ws| - 1] + [ws[|ws| - 1]];
    }
  }

  /** Taking bits away leaves the list waiting. */
  lemma StaysSettled(g: Group, gone: Word)
    requires Settled(g)
    ensures Settled(g.(bits := g.bits - gone))
  {
    hide Met;
    hide Want;
    hide All;
    forall i | 0 <= i < |g.waiters|
      ensures !Satisfied(g.bits - gone, g.waiters[i])
    {
      var w := g.waiters[i];
      if Met(g.bits - gone, Want(w), All(w)) { FewerBits(g.bits, gone, Want(w), All(w)); }
    }
  }

  lemma SetSettles(g: Group, b: Word)
    ensures Settled(SetOn(g, b))
  {
    hide Satisfied;
    hide ClearMask;
    var combined := g.bits + b;
    var rest := Unsatisfied(combined, g.waiters);
    forall i | 0 <= i < |rest| ensures !Satisfied(combined, rest[i]) {
      UnsatisfiedAre(combined, g.waiters, rest[i]);
    }
    StaysSettled(Group(combined, rest), ClearMask(combined, g.waiters));
  }

  /** A bit is cleared exactly when a task that is woken waited for it with clear-on-exit. */
  lemma {:induction false} ClearedIff(bits: Word, ws: seq<Waiter>, b: nat)
    ensures b in ClearMask(bits, ws) <==> exists i :: 0 <= i < |ws| && Contributes(bits, ws[i]) && b in Want(ws[i])
  {
    hide Contributes;
    hide Want;
    if ws != [] {
      var front, last := ws[..|ws| - 1], ws[|ws| - 1];
      ClearedIff(bits, front, b);
      assert forall i :: 0 <= i < |ws| ==> ws[i] == if i < |front| then front[i] else last;
    }
  }

  lemma MaskWithin(bits: Word, ws: seq<Waiter>, ws': seq<Waiter>)
    requires forall w :: w in ws ==> w in ws'
    ensures ClearMask(bits, ws) <= ClearMask(bits, ws')
  {
    hide Contributes;
    hide Want;
    hide ClearMask;
    forall b | b in ClearMask(bits, ws) ensures b in ClearMask(bits, ws') {
      ClearedIff(bits, ws, b);
      var i :| 0 <= i < |ws| && Contributes(bits, ws[i]) && b in Want(ws[i]);
      assert ws[i] in ws';
      ClearedIff(bits, ws', b);
    }
  }

  lemma {:induction false} LeftWaiting(bits: Word, ws: seq<Waiter>, w: Waiter)
    ensures multiset(Unsatisfied(bits, ws))[w] == if Satisfied(bits, w) then 0 else multiset(ws)[w]
  {
    hide Satisfied;
    if ws != [] {
      LeftWaiting(bits, ws[..|ws| - 1], w);
      assert ws == ws[..|ws| - 1] + [ws[|ws| - 1]];
    }
  }

  /** The outcome of a set does not depend on the order of the list: the same bits remain and the
      same tasks stay. */
  lemma SetIgnoresOrder(bits: Word, b: Word, ws: seq<Waiter>, ws': seq<Waiter>)
    requires multiset(ws) == multiset(ws')
    ensures SetOn(Group(bits, ws), b).bits == SetOn(Group(bits, ws'), b).bits
    ensures multiset(SetOn(Group(bits, ws), b).waiters) == multiset(SetOn(Group(bits, ws'), b).waiters)
  {
    hide Satisfied;
    hide ClearMask;
    hide Unsatisfied;
    var c := bits + b;
    assert forall w :: w in ws <==> w in multiset(ws);
    assert forall w :: w in ws' <==> w in multiset(ws');
    MaskWithin(c, ws, ws');
    MaskWithin(c, ws', ws);
    forall w
      ensures multiset(Unsatisfied(c, ws))[w] == multiset(Unsatisfied(c, ws'))[w]
    {
      LeftWaiting(c, ws, w);
      LeftWaiting(c, ws', w);
    }
  }

  /** Exactly the satisfied tasks are woken, and the value each gets is the bits that satisfied it. */
  lemma {:induction false} WokenIff(bits: Word, ws: seq<Waiter>, task: nat)
    ensures Woken(task, bits + UNBLOCKED) in WokenBy(bits, ws) <==>
            exists i :: 0 <= i < |ws| && ws[i].task == task && Satisfied(bits, ws[i])
    ensures forall v :: Woken(task, v) in WokenBy(bits, ws) ==> v == bits + UNBLOCKED
  {
    hide Satisfied;
    if ws != [] {
      var front, last := ws[..|ws| - 1], ws[|ws| - 1];
      WokenIff(bits, front, task);
      assert forall i :: 0 <= i < |ws| ==> ws[i] == if i < |front| then front[i] else last;
    }
  }

  // ---- The other operations ----

  /** A task taken off the list because its time ran out keeps its parameters on its stack. */
  datatype Op =
    | SetBits(b: Word)
    | ClearBits(b: Word)
    | WaitBits(task: nat, want: Word, clear: bool, all: bool, block: bool)
    | Sync(task: nat, b: Word, want: Word, block: bool)
    | Expire(i: nat)
    | AfterTimeout(want: Word, clear: bool, all: bool)

  function WaitOn(g: Group, task: nat, want: Word, clear: bool, all: bool, block: bool): Group {
    if Met(g.bits, want, all) then (if clear then g.(bits := g.bits - want) else g)
    else if !block then g
    else g.(waiters := g.waiters + [Waiter(task, Pack(want, clear, all))])
  }

  function SyncOn(g: Group, task: nat, b: Word, want: Word, block: bool): Group {
    var after := SetOn(g, b);
    if Met(g.bits + b, want, true) then after.(bits := after.bits - want)
    else if !block then after
    else after.(waiters := after.waiters + [Waiter(task, Pack(want, true, true))])
  }

  function ExpireOn(g: Group, i: nat): Group {
    if i < |g.waiters| then g.(waiters := g.waiters[..i] + g.waiters[i + 1..]) else g
  }

  /** What a task does to the bits when it resumes without having been unblocked by a set. */
  function TimeoutOn(g: Group, want: Word, clear: bool, all: bool): Group {
    if Met(g.bits, want, all) && clear then g.(bits := g.bits - want) else g
  }

  function Step(g: Group, op: Op): Group {
    match op
    case SetBits(b) => SetOn(g, b)
    case ClearBits(b) => g.(bits := g.bits - b)
    case WaitBits(task, want, clear, all, block) => WaitOn(g, task, want, clear, all, block)
    case Sync(task, b, want, block) => SyncOn(g, task, b, want, block)
    case Expire(i) => ExpireOn(g, i)
    case AfterTimeout(want, clear, all) => TimeoutOn(g, want, clear, all)
  }

  /** Callers may not name control bits. */
  ghost predicate OpOk(op: Op) {
    && ((op.WaitBits? || op.Sync? || op.AfterTimeout?) ==> op.want !! CONTROL && op.want != {})
    && ((op.SetBits? || op.ClearBits? || op.Sync?) ==> op.b !! CONTROL)
  }

  /** The task that blocks is not satisfied by the bits it leaves behind. */
  lemma BlockingIsSettled(g: Group, w: Waiter)
    requires Settled(g) && !Satisfied(g.bits, w)
    ensures Settled(g.(waiters := g.waiters + [w]))
  {
    hide Satisfied;
  }

  lemma StepSettles(g: Group, op: Op)
    requires Settled(g) && OpOk(op)
    ensures Settled(Step(g, op))
  {
    hide Met;
    hide Pack;
    hide Settled;
    hide SetOn;
    match op {
      case SetBits(b) => SetSettles(g, b);
      case ClearBits(b) => StaysSettled(g, b);
      case WaitBits(task, want, clear, all, _) =>
        StaysSettled(g, want);
        PackRoundTrip(task, want, clear, all);
        if !Met(g.bits, want, all) { BlockingIsSettled(g, Waiter(task, Pack(want, clear, all))); }
      case Sync(task, b, want, block) =>
        SyncSettles(g, task, b, want, block);
      case Expire(i) => ExpireSettles(g, i);
      case AfterTimeout(want, _, _) => StaysSettled(g, want);
    }
  }

  lemma ExpireSettles(g: Group, i: nat)
    requires Settled(g)
    ensures Settled(ExpireOn(g, i))
  {
    hide Satisfied;
  }

  lemma SyncSettles(g: Group, task: nat, b: Word, want: Word, block: bool)
    requires want !! CONTROL
    ensures Settled(SyncOn(g, task, b, want, block))
  {
    hide Met;
    hide Pack;
    hide Settled;
    hide ClearMask;
    SetSettles(g, b);
    StaysSettled(SetOn(g, b), want);
    PackRoundTrip(task, want, true, true);
    var combined := g.bits + b;
    if !Met(combined, want, true) {
      if Met(combined - ClearMask(combined, g.waiters), want, true) {
        FewerBits(combined, ClearMask(combined, g.waiters), want, true);
      }
      BlockingIsSettled(SetOn(g, b), Waiter(task, Pack(want, true, true)));
    }
  }

  // ---- What each operation leaves, bit by bit and task by task ----

  /** Waiting for any of the bits is met by one of them, waiting for all by all of them. */
  lemma MetIff(bits: Word, want: Word, all: bool)
    ensures Met(bits, want, all) <==> if all then forall x :: x in want ==> x in bits else exists x :: x in want && x in bits
  {
    MetAll(bits, want);
    if x :| x in want && x in bits { assert x in bits * want; }
    if bits * want != {} {
      var x :| x in bits * want;
      assert x in want && x in bits;
    }
  }

  /** Some task woken by these bits asked for x to be cleared. */
  ghost predicate ClearedFor(bits: Word, ws: seq<Waiter>, x: nat) {
    exists i :: 0 <= i < |ws| && Satisfied(bits, ws[i]) && Clears(ws[i]) && x in Want(ws[i])
  }

  lemma SetBit(g: Group, b: Word, x: nat)
    ensures x in SetOn(g, b).bits <==> (x in g.bits || x in b) && !ClearedFor(g.bits + b, g.waiters, x)
  {
    hide Satisfied;
    hide Clears;
    hide Want;
    hide ClearMask;
    hide Unsatisfied;
    ClearedIff(g.bits + b, g.waiters, x);
    forall i | 0 <= i < |g.waiters|
      ensures Contributes(g.bits + b, g.waiters[i]) <==> Satisfied(g.bits + b, g.waiters[i]) && Clears(g.waiters[i])
    {
    }
  }

  /** Which bits remain after an operation. */
  lemma StepBit(g: Group, op: Op, x: nat)
    ensures x in Step(g, op).bits <==>
            match op
            case SetBits(b) => (x in g.bits || x in b) && !ClearedFor(g.bits + b, g.waiters, x)
            case ClearBits(b) => x in g.bits && x !in b
            case WaitBits(_, want, clear, all, _) => x in g.bits && !(Met(g.bits, want, all) && clear && x in want)
            case Sync(_, b, want, _) =>
              (x in g.bits || x in b) && !ClearedFor(g.bits + b, g.waiters, x) && !(Met(g.bits + b, want, true) && x in want)
            case Expire(_) => x in g.bits
            case AfterTimeout(want, clear, all) => x in g.bits && !(Met(g.bits, want, all) && clear && x in want)
  {
    hide Met;
    hide SetOn;
    hide Pack;
    hide ClearedFor;
    match op {
      case SetBits(b) => SetBit(g, b, x);
      case Sync(_, b, _, _) => SetBit(g, b, x);
      case _ =>
    }
  }

  /** The entry of a task that blocks. */
  ghost predicate IsEntry(w: Waiter, task: nat, want: Word, clear: bool, all: bool) {
    w.task == task && Want(w) == want && Clears(w) == clear && All(w) == all
  }

  /** Which tasks are on the list after an operation: setting takes off the satisfied ones and keeps the order
      of the others, a wait or rendezvous that is not met and may block adds its task at the end, a timeout
      takes off one. */
  lemma StepTasks(g: Group, op: Op)
    requires OpOk(op)
    ensures match op
            case SetBits(b) => Step(g, op).waiters == Unsatisfied(g.bits + b, g.waiters)
            case ClearBits(_) => Step(g, op).waiters == g.waiters
            case WaitBits(task, want, clear, all, block) =>
              var ws := Step(g, op).waiters;
              if block && !Met(g.bits, want, all)
              then |ws| == |g.waiters| + 1 && ws[..|g.waiters|] == g.waiters && IsEntry(ws[|g.waiters|], task, want, clear, all)
              else ws == g.waiters
            case Sync(task, b, want, block) =>
              var ws, left := Step(g, op).waiters, Unsatisfied(g.bits + b, g.waiters);
              if block && !Met(g.bits + b, want, true)
              then |ws| == |left| + 1 && ws[..|left|] == left && IsEntry(ws[|left|], task, want, true, true)
              else ws == left
            case Expire(i) => Step(g, op).waiters == if i < |g.waiters| then g.waiters[..i] + g.waiters[i + 1..] else g.waiters
            case AfterTimeout(_, _, _) => Step(g, op).waiters == g.waiters
  {
    hide Met;
    hide Pack;
    hide Unsatisfied;
    hide ClearMask;
    match op {
      case WaitBits(task, want, clear, all, _) => PackRoundTrip(task, want, clear, all);
      case Sync(task, _, want, _) => PackRoundTrip(task, want, true, true);
      case _ =>
    }
  }

  function Run(ops: seq<Op>): Group {
    if ops == [] then Group({}, []) else Step(Run(ops[..|ops| - 1]), ops[|ops| - 1])
  }

  /** After every operation of every run, no task on the list has its condition met. */
  lemma {:induction false} RunsStaySettled(ops: seq<Op>)
    requires forall i :: 0 <= i < |ops| ==> OpOk(ops[i])
    ensures Settled(Run(ops))
  {
    if ops != [] {
      RunsStaySettled(ops[..|ops| - 1]);
      StepSettles(Run(ops[..|ops| - 1]), ops[|ops| - 1]);
    }
  }

  lemma ScanStart(bits: Word)
    ensures Unsatisfied(bits, []) == [] && WokenBy(bits, []) == [] && ClearMask(bits, []) == {}
  {
  }

  lemma ScanStep(bits: Word, ws: seq<Waiter>, n: nat)
    requires n < |ws|
    ensures Unsatisfied(bits, ws[..n + 1]) == Unsatisfied(bits, ws[..n]) + if Satisfied(bits, ws[n]) then [] else [ws[n]]
    ensures WokenBy(bits, ws[..n + 1]) ==
            WokenBy(bits, ws[..n]) + if Satisfied(bits, ws[n]) then [Woken(ws[n].task, bits + UNBLOCKED)] else []
    ensures ClearMask(bits, ws[..n + 1]) ==
            ClearMask(bits, ws[..n]) + if Satisfied(bits, ws[n]) && Clears(ws[n]) then Want(ws[n]) else {}
  {
    hide Satisfied;
    assert ws[..n + 1][..n] == ws[..n];
  }

  // ---- The group as it is updated in place ----

  class Events {
    var bits: Word
    var waiters: seq<Waiter>
    ghost var woken: seq<Woken>   // values left for tasks taken off the list

    function State(): Group
      reads this
    {
      Group(bits, waiters)
    }

    constructor ()
      ensures State() == Run([]) && woken == []
    {
      bits, waiters, woken := {}, [], [];
    }

    /** xEventGroupSetBits: walk the list, removing on the way; the bits change only afterwards. */
    method Set(b: Word) returns (result: Word)
      modifies this
      ensures State() == SetOn(old(State()), b) && result == bits
      ensures woken == old(woken) + WokenBy(old(bits) + b, old(waiters))
    {
      hide Satisfied;
      hide Clears;
      hide Want;
      hide Unsatisfied;
      hide WokenBy;
      hide ClearMask;
      ghost var ws, seen := waiters, 0;
      ScanStart(bits + b);
      bits := bits + b;
      var combined := bits;
      var clear: Word := {};
      var i := 0;
      while i < |waiters|
        invariant 0 <= i <= |waiters| && seen <= |ws| && bits == combined
        invariant waiters[..i] == Unsatisfied(combined, ws[..seen]) && waiters[i..] == ws[seen..]
        invariant clear == ClearMask(combined, ws[..seen])
        invariant woken == old(woken) + WokenBy(combined, ws[..seen])
        decreases |waiters| - i
      {
        var w := waiters[i];
        assert w == ws[seen] by { assert waiters[i..][0] == w; }
        ScanStep(combined, ws, seen);
        assert waiters[i..][1..] == waiters[i + 1..] && ws[seen..][1..] == ws[seen + 1..];
        if Satisfied(bits, w) {
          if Clears(w) {
            clear := clear + Want(w);
          }
          woken := woken + [Woken(w.task, bits + UNBLOCKED)];
          waiters := waiters[..i] + waiters[i + 1..];
        } else {
          assert waiters[..i + 1] == waiters[..i] + [w];
          i := i + 1;
        }
        seen := seen + 1;
      }
      assert seen == |ws| && ws[..seen] == ws && waiters[..i] == waiters;
      bits := bits - clear;
      result := bits;
    }

    /** xEventGroupWaitBits up to the point where the task blocks or returns. */
    method Wait(task: nat, want: Word, clear: bool, all: bool, block: bool) returns (blocked: bool, result: Word)
      modifies this
      ensures State() == WaitOn(old(State()), task, want, clear, all, block) && woken == old(woken)
      ensures blocked <==> block && !Met(old(bits), want, all)
      ensures !blocked ==> result == old(bits)
    {
      blocked, result := false, bits;
      if Met(bits, want, all) {
        if clear {
          bits := bits - want;
        }
      } else if block {
        waiters := waiters + [Waiter(task, Pack(want, clear, all))];
        blocked, result := true, {};
      }
    }

    /** xEventGroupSync up to the point where the task blocks or returns. */
    method Rendezvous(task: nat, b: Word, want: Word, block: bool) returns (blocked: bool, result: Word)
      modifies this
      ensures State() == SyncOn(old(State()), task, b, want, block)
      ensures blocked <==> block && !(want <= old(bits) + b)
      ensures want <= old(bits) + b ==> result == old(bits) + b
      ensures !blocked && !(want <= old(bits) + b) ==> result == bits
      ensures woken == old(woken) + WokenBy(old(bits) + b, old(waiters))
    {
      hide SetOn;
      var original := bits;
      var _ := Set(b);
      MetAll(original + b, want);
      blocked, result := false, bits;
      if Met(original + b, want, true) {
        result := original + b;
        bits := bits - want;
      } else if block {
        waiters := waiters + [Waiter(task, Pack(want, true, true))];
        blocked, result := true, {};
      }
    }
  }
}
