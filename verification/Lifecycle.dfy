/** The device lifecycle: open and I/O reference counts kept by compare-and-swap loops, and the
    removal protocol that waits for both to reach zero and locks them at -1. Any number of
    activities interleave at single loads and compare-and-swaps. */
module Lifecycle {

  datatype Phase = LIVE | REMOVING

  /** One activity between two of its atomic operations. It holds at most one reference. */
  datatype Thread =
    | Free
    | OpenLoaded(seen: int)    // open_begin: opens loaded and not locked
    | OpenChecked(seen: int)   // open_begin: state loaded and LIVE
    | Opened                   // holds an open
    | CloseLoaded(seen: int)   // close_begin: opens loaded, still holds the open
    | IoLoaded(seen: int)
    | IoChecked(seen: int)
    | InIo                     // between io_begin and io_end
    | DrainOpens               // remove_drain: waiting to lock opens
    | DrainIo                  // remove_drain: opens locked, waiting to lock io_active
    | Drained                  // remove_drain returned MINI_OK

  datatype State = State(opens: int, io: int, phase: Phase, ts: seq<Thread>)

  datatype Step =
    | LoadOpens | LoadPhase | CasOpens | LoadForClose | CasClose | Abort
    | LoadIo | CasIo | EndIo
    | RemoveStart | LoadForDrain | LockOpens | LockIo | GiveUp

  datatype Action = Action(who: nat, step: Step)

  function OpenNext(s: State, t: Thread, step: Step): (State, Thread) {
    match (step, t)
    case (LoadOpens, Free) => if s.opens < 0 then (s, Free) else (s, OpenLoaded(s.opens))
    case (LoadPhase, OpenLoaded(seen)) => if s.phase != LIVE then (s, Free) else (s, OpenChecked(seen))
    case (CasOpens, OpenChecked(seen)) =>
      if s.opens == seen then (s.(opens := seen + 1), Opened) else (s, Free)
    case (LoadForClose, Opened) => if s.opens <= 0 then (s, Opened) else (s, CloseLoaded(s.opens))
    case (CasClose, CloseLoaded(seen)) =>
      if s.opens == seen then (s.(opens := seen - 1), Free) else (s, Opened)
    case (Abort, Opened) => (s.(opens := s.opens - 1), Free)
    case _ => (s, t)
  }

  function IoNext(s: State, t: Thread, step: Step): (State, Thread) {
    match (step, t)
    case (LoadIo, Free) => if s.io < 0 then (s, Free) else (s, IoLoaded(s.io))
    case (LoadPhase, IoLoaded(seen)) => if s.phase != LIVE then (s, Free) else (s, IoChecked(seen))
    case (CasIo, IoChecked(seen)) => if s.io == seen then (s.(io := seen + 1), InIo) else (s, Free)
    case (EndIo, InIo) => (s.(io := s.io - 1), Free)
    case _ => (s, t)
  }

  function RemoveNext(s: State, t: Thread, step: Step): (State, Thread) {
    match (step, t)
    case (RemoveStart, Free) => (s.(phase := REMOVING), Free)
    case (LoadForDrain, Free) => if s.phase != REMOVING then (s, Free) else (s, DrainOpens)
    case (LockOpens, DrainOpens) => if s.opens == 0 then (s.(opens := -1), DrainIo) else (s, DrainOpens)
    case (LockIo, DrainIo) => if s.io == 0 then (s.(io := -1), Drained) else (s, DrainIo)
    case (GiveUp, DrainOpens) => (s, Free)
    case (GiveUp, DrainIo) => (s, Free)
    case _ => (s, t)
  }

  /** A failed compare-and-swap goes back to the load it started from. */
  function Next(s: State, a: Action): State {
    if a.who >= |s.ts| then s else
    var t := s.ts[a.who];
    var (s', t') :=
      if t.IoLoaded? || t.IoChecked? || t.InIo? || a.step.LoadIo? then IoNext(s, t, a.step)
      else if t.DrainOpens? || t.DrainIo? || a.step.RemoveStart? || a.step.LoadForDrain? then RemoveNext(s, t, a.step)
      else OpenNext(s, t, a.step);
    s'.(ts := s.ts[a.who := t'])
  }

  function Run(s: State, run: seq<Action>): State
    decreases |run|
  {
    if run == [] then s else Run(Next(s, run[0]), run[1..])
  }

  /** dev_lc_init, with n activities that hold nothing. */
  function Init(n: nat): State {
    State(0, 0, LIVE, seq(n, _ => Free))
  }

  // ---- Counting references ----

  predicate HoldsOpen(t: Thread) { t.Opened? || t.CloseLoaded? }

  predicate HoldsIo(t: Thread) { t.InIo? }

  function Count(ts: seq<Thread>, p: Thread -> bool): nat {
    if ts == [] then 0 else Count(ts[1..], p) + if p(ts[0]) then 1 else 0
  }

  lemma {:induction false} CountUpdate(ts: seq<Thread>, i: nat, t: Thread, p: Thread -> bool)
    requires i < |ts|
    ensures Count(ts[i := t], p) == Count(ts, p) - (if p(ts[i]) then 1 else 0) + if p(t) then 1 else 0
    decreases i
  {
    if i == 0 {
      assert ts[0 := t][1..] == ts[1..];
    } else {
      CountUpdate(ts[1..], i - 1, t, p);
      assert ts[i := t][1..] == ts[1..][i - 1 := t];
    }
  }

  lemma {:induction false} CountZero(ts: seq<Thread>, p: Thread -> bool)
    ensures Count(ts, p) == 0 <==> forall i :: 0 <= i < |ts| ==> !p(ts[i])
  {
    if ts != [] {
      CountZero(ts[1..], p);
      assert forall i :: 0 <= i < |ts| ==> ts[i] == if i == 0 then ts[0] else ts[1..][i - 1];
    }
  }

  // ---- The invariant ----

  ghost predicate ThreadOk(s: State, t: Thread) {
    && ((t.OpenLoaded? || t.OpenChecked? || t.IoLoaded? || t.IoChecked?) ==> t.seen >= 0)
    && (t.CloseLoaded? ==> t.seen > 0)
    && (t.DrainOpens? ==> s.phase == REMOVING)
    && (t.DrainIo? ==> s.opens == -1)
    && (t.Drained? ==> s.opens == -1 && s.io == -1)
  }

  /** A counter is the number of references held, or is locked while none are held. */
  predicate Counts(counter: int, held: nat) {
    counter == held || (counter == -1 && held == 0)
  }

  ghost predicate Inv(s: State) {
    && Counts(s.opens, Count(s.ts, HoldsOpen))
    && Counts(s.io, Count(s.ts, HoldsIo))
    && (s.opens == -1 ==> s.phase == REMOVING)
    && (s.io == -1 ==> s.opens == -1)
    && (forall i :: 0 <= i < |s.ts| ==> ThreadOk(s, s.ts[i]))
  }

  lemma InitInv(n: nat)
    ensures Inv(Init(n))
  {
    CountZero(Init(n).ts, HoldsOpen);
    CountZero(Init(n).ts, HoldsIo);
  }

  lemma HeldByOne(s: State, i: nat)
    requires Inv(s) && i < |s.ts|
    ensures HoldsOpen(s.ts[i]) ==> s.opens == Count(s.ts, HoldsOpen) > 0
    ensures HoldsIo(s.ts[i]) ==> s.io == Count(s.ts, HoldsIo) > 0
  {
    CountZero(s.ts, HoldsOpen);
    CountZero(s.ts, HoldsIo);
  }

  lemma StepKeepsInv(s: State, a: Action)
    requires Inv(s)
    ensures Inv(Next(s, a))
  {
    if a.who < |s.ts| {
      HeldByOne(s, a.who);
      StepKeepsCounts(s, a);
      StepKeepsThreads(s, a);
    }
  }

  /** What the acting thread may rely on. */
  ghost predicate Local(s: State, t: Thread) {
    && ThreadOk(s, t)
    && (HoldsOpen(t) ==> s.opens > 0) && (HoldsIo(t) ==> s.io > 0)
    && s.opens >= -1 && s.io >= -1
    && (s.opens == -1 ==> s.phase == REMOVING) && (s.io == -1 ==> s.opens == -1)
  }

  lemma StepKeepsCounts(s: State, a: Action)
    requires a.who < |s.ts| && Local(s, s.ts[a.who])
    requires Counts(s.opens, Count(s.ts, HoldsOpen)) && Counts(s.io, Count(s.ts, HoldsIo))
    ensures var s' := Next(s, a);
            Counts(s'.opens, Count(s'.ts, HoldsOpen)) && Counts(s'.io, Count(s'.ts, HoldsIo))
  {
    hide Count;
    var t' := Next(s, a).ts[a.who];
    CountUpdate(s.ts, a.who, t', HoldsOpen);
    CountUpdate(s.ts, a.who, t', HoldsIo);
  }

  lemma StepKeepsThreads(s: State, a: Action)
    requires a.who < |s.ts| && Local(s, s.ts[a.who])
    requires forall i :: 0 <= i < |s.ts| ==> ThreadOk(s, s.ts[i])
    ensures var s' := Next(s, a);
            && (s'.opens == -1 ==> s'.phase == REMOVING) && (s'.io == -1 ==> s'.opens == -1)
            && (forall i :: 0 <= i < |s'.ts| ==> ThreadOk(s', s'.ts[i]))
  {
    hide Count;
  }

  lemma {:induction false} RunKeepsInv(s: State, run: seq<Action>)
    requires Inv(s)
    ensures Inv(Run(s, run))
    decreases |run|
  {
    if run != [] {
      StepKeepsInv(s, run[0]);
      RunKeepsInv(Next(s, run[0]), run[1..]);
    }
  }

  /** In every run each unlocked counter is exactly the number of references held, and a
      counter is locked only while none is held. */
  lemma CountersAreReferences(n: nat, run: seq<Action>)
    ensures var s := Run(Init(n), run);
            && Counts(s.opens, Count(s.ts, HoldsOpen)) && Counts(s.io, Count(s.ts, HoldsIo))
            && (s.opens < 0 ==> forall i :: 0 <= i < |s.ts| ==> !HoldsOpen(s.ts[i]))
            && (s.io < 0 ==> forall i :: 0 <= i < |s.ts| ==> !HoldsIo(s.ts[i]))
  {
    InitInv(n);
    RunKeepsInv(Init(n), run);
    var s := Run(Init(n), run);
    CountZero(s.ts, HoldsOpen);
    CountZero(s.ts, HoldsIo);
  }

  /** open_begin reports a first open exactly when nobody else holds one, and close_begin a last
      close exactly when nobody is left. */
  lemma FirstAndLast(s: State, i: nat)
    requires Inv(s) && i < |s.ts|
    ensures var s' := Next(s, Action(i, CasOpens));
            s.ts[i].OpenChecked? && s'.ts[i].Opened? ==>
              (s'.opens == 1 <==> forall j :: 0 <= j < |s.ts| ==> !HoldsOpen(s.ts[j]))
    ensures var s' := Next(s, Action(i, CasClose));
            s.ts[i].CloseLoaded? && s'.ts[i].Free? ==>
              (s'.opens == 0 <==> forall j :: 0 <= j < |s.ts| && j != i ==> !HoldsOpen(s.ts[j]))
  {
    StepKeepsInv(s, Action(i, CasClose));
    var s' := Next(s, Action(i, CasClose));
    CountZero(s.ts, HoldsOpen);
    CountZero(s'.ts, HoldsOpen);
    CountUpdate(s.ts, i, s'.ts[i], HoldsOpen);
    assert forall j :: 0 <= j < |s.ts| && j != i ==> s'.ts[j] == s.ts[j];
  }

  /** The state with one activity and the counters changed, and nothing else. */
  function With(s: State, i: nat, t: Thread, opens: int, io: int): State
    requires i < |s.ts|
  {
    State(opens, io, s.phase, s.ts[i := t])
  }

  /** A compare-and-swap takes effect exactly when the counter still has the value loaded; then it moves the
      counter by one, otherwise the activity starts over and nothing else changes. */
  lemma SwapIff(s: State, i: nat)
    requires i < |s.ts|
    ensures s.ts[i].OpenChecked? ==>
              Next(s, Action(i, CasOpens)) ==
              if s.opens == s.ts[i].seen then With(s, i, Opened, s.opens + 1, s.io) else With(s, i, Free, s.opens, s.io)
    ensures s.ts[i].IoChecked? ==>
              Next(s, Action(i, CasIo)) ==
              if s.io == s.ts[i].seen then With(s, i, InIo, s.opens, s.io + 1) else With(s, i, Free, s.opens, s.io)
    ensures s.ts[i].CloseLoaded? ==>
              Next(s, Action(i, CasClose)) ==
              if s.opens == s.ts[i].seen then With(s, i, Free, s.opens - 1, s.io) else With(s, i, Opened, s.opens, s.io)
  {
  }

  /** open_begin taken without another activity in between: in every reachable state it gives one more open
      while the device is LIVE, and changes nothing once a removal has started. */
  lemma OpenTakesOne(n: nat, before: seq<Action>, i: nat)
    requires var s := Run(Init(n), before); i < |s.ts| && s.ts[i].Free?
    ensures var s := Run(Init(n), before);
            Run(s, [Action(i, LoadOpens), Action(i, LoadPhase), Action(i, CasOpens)]) ==
            if s.phase == LIVE then With(s, i, Opened, s.opens + 1, s.io) else s
  {
    hide Count;
    var s := Run(Init(n), before);
    Reachable(n, before);
    RunThree(s, Action(i, LoadOpens), Action(i, LoadPhase), Action(i, CasOpens));
    assert s.ts[i := Free] == s.ts;
  }

  /** The same for io_begin. */
  lemma IoTakesOne(n: nat, before: seq<Action>, i: nat)
    requires var s := Run(Init(n), before); i < |s.ts| && s.ts[i].Free?
    ensures var s := Run(Init(n), before);
            Run(s, [Action(i, LoadIo), Action(i, LoadPhase), Action(i, CasIo)]) ==
            if s.phase == LIVE then With(s, i, InIo, s.opens, s.io + 1) else s
  {
    hide Count;
    var s := Run(Init(n), before);
    Reachable(n, before);
    RunThree(s, Action(i, LoadIo), Action(i, LoadPhase), Action(i, CasIo));
    assert s.ts[i := Free] == s.ts;
  }

  lemma Reachable(n: nat, before: seq<Action>)
    ensures var s := Run(Init(n), before); Inv(s) && (s.phase == LIVE ==> s.opens >= 0 && s.io >= 0)
  {
    InitInv(n);
    RunKeepsInv(Init(n), before);
  }

  /** Close, abort and io_end give up exactly the one reference the activity holds, also during a removal. */
  lemma EndsGiveUpOne(n: nat, before: seq<Action>, i: nat)
    requires i < |Run(Init(n), before).ts|
    ensures var s := Run(Init(n), before);
            && (s.ts[i].Opened? ==>
                  && Run(s, [Action(i, LoadForClose), Action(i, CasClose)]) == With(s, i, Free, s.opens - 1, s.io)
                  && Next(s, Action(i, Abort)) == With(s, i, Free, s.opens - 1, s.io) && s.opens > 0)
            && (s.ts[i].InIo? ==> Next(s, Action(i, EndIo)) == With(s, i, Free, s.opens, s.io - 1) && s.io > 0)
  {
    hide Count;
    hide Inv;
    hide Next;
    var s := Run(Init(n), before);
    Reachable(n, before);
    HeldByOne(s, i);
    if s.ts[i].Opened? { CloseGivesUp(s, i); }
    if s.ts[i].InIo? { IoGivesUp(s, i); }
  }

  lemma CloseGivesUp(s: State, i: nat)
    requires i < |s.ts| && s.ts[i].Opened? && s.opens > 0
    ensures Run(s, [Action(i, LoadForClose), Action(i, CasClose)]) == With(s, i, Free, s.opens - 1, s.io)
    ensures Next(s, Action(i, Abort)) == With(s, i, Free, s.opens - 1, s.io)
  {
    hide Run;
    hide Next;
    var s1 := With(s, i, CloseLoaded(s.opens), s.opens, s.io);
    CloseLoads(s, i);
    SwapIff(s1, i);
    RunTwo(s, Action(i, LoadForClose), Action(i, CasClose));
    assert s.ts[i := CloseLoaded(s.opens)][i := Free] == s.ts[i := Free];
  }

  lemma CloseLoads(s: State, i: nat)
    requires i < |s.ts| && s.ts[i].Opened? && s.opens > 0
    ensures Next(s, Action(i, LoadForClose)) == With(s, i, CloseLoaded(s.opens), s.opens, s.io)
    ensures Next(s, Action(i, Abort)) == With(s, i, Free, s.opens - 1, s.io)
  {
  }

  lemma IoGivesUp(s: State, i: nat)
    requires i < |s.ts| && s.ts[i].InIo?
    ensures Next(s, Action(i, EndIo)) == With(s, i, Free, s.opens, s.io - 1)
  {
  }

  lemma RunTwo(s: State, a: Action, b: Action)
    ensures Run(s, [a, b]) == Next(Next(s, a), b)
  {
    hide Next;
    RunFirst(s, a, [b]);
    RunFirst(Next(s, a), b, []);
    assert [a] + [b] == [a, b] && [b] + [] == [b];
  }

  /** remove_start only moves the phase, remove_drain is refused unless it did, and each of its two locks
      is taken exactly when the counter is zero. */
  lemma DrainLocksIff(s: State, i: nat)
    requires i < |s.ts|
    ensures s.ts[i].Free? ==> Next(s, Action(i, RemoveStart)) == s.(phase := REMOVING)
    ensures s.ts[i].Free? ==>
              Next(s, Action(i, LoadForDrain)) == if s.phase == REMOVING then With(s, i, DrainOpens, s.opens, s.io) else s
    ensures s.ts[i].DrainOpens? ==>
              Next(s, Action(i, LockOpens)) == if s.opens == 0 then With(s, i, DrainIo, -1, s.io) else s
    ensures s.ts[i].DrainIo? ==>
              Next(s, Action(i, LockIo)) == if s.io == 0 then With(s, i, Drained, s.opens, -1) else s
  {
    assert s.ts[i := s.ts[i]] == s.ts;
  }

  /** A holder is never refused: its close does not see a zero or locked counter. */
  lemma HolderCanClose(s: State, i: nat)
    requires Inv(s) && i < |s.ts| && s.ts[i].Opened?
    ensures Next(s, Action(i, LoadForClose)).ts[i] == CloseLoaded(Count(s.ts, HoldsOpen))
  {
    HeldByOne(s, i);
  }

  // ---- Removal ----

  lemma StepMonotone(s: State, a: Action)
    requires Inv(s)
    ensures var s' := Next(s, a);
            && |s'.ts| == |s.ts|
            && (s.phase == REMOVING ==> s'.phase == REMOVING)
            && (s.opens == -1 ==> s'.opens == -1)
            && (s.io == -1 ==> s'.io == -1)
  {
    if a.who < |s.ts| { HeldByOne(s, a.who); }
  }

  /** Once locked, a counter stays locked, and a removal that has started stays started. */
  lemma {:induction false} LockIsPermanent(s: State, run: seq<Action>)
    requires Inv(s)
    ensures var s' := Run(s, run);
            && |s'.ts| == |s.ts|
            && (s.phase == REMOVING ==> s'.phase == REMOVING)
            && (s.opens == -1 ==> s'.opens == -1)
            && (s.io == -1 ==> s'.io == -1)
    decreases |run|
  {
    if run != [] {
      StepMonotone(s, run[0]);
      StepKeepsInv(s, run[0]);
      LockIsPermanent(Next(s, run[0]), run[1..]);
    }
  }

  ghost predicate NobodyHolds(s: State) {
    forall i :: 0 <= i < |s.ts| ==> !HoldsOpen(s.ts[i]) && !HoldsIo(s.ts[i])
  }

  /** Once remove_drain has returned MINI_OK, nobody holds an open or is inside I/O, and however the
      run goes on nobody ever does again. */
  lemma DrainIsFinal(n: nat, before: seq<Action>, after: seq<Action>)
    requires exists i :: 0 <= i < |Run(Init(n), before).ts| && Run(Init(n), before).ts[i].Drained?
    ensures NobodyHolds(Run(Init(n), before))
    ensures NobodyHolds(Run(Run(Init(n), before), after))
  {
    InitInv(n);
    var s := Run(Init(n), before);
    RunKeepsInv(Init(n), before);
    RunKeepsInv(s, after);
    LockIsPermanent(s, after);
    LockedHoldsNothing(s);
    LockedHoldsNothing(Run(s, after));
  }

  lemma LockedHoldsNothing(s: State)
    requires Inv(s) && s.opens == -1 && s.io == -1
    ensures NobodyHolds(s)
  {
    CountZero(s.ts, HoldsOpen);
    CountZero(s.ts, HoldsIo);
  }

  /** Neither holding a reference nor past the load of `state`. */
  predicate Outside(t: Thread) {
    !HoldsOpen(t) && !HoldsIo(t) && !t.OpenChecked? && !t.IoChecked?
  }

  /** A begin whose load of `state` comes after remove_start never succeeds. */
  lemma {:induction false} LateBeginsFail(s: State, run: seq<Action>, i: nat)
    requires s.phase == REMOVING && i < |s.ts| && Outside(s.ts[i])
    ensures i < |Run(s, run).ts| && Outside(Run(s, run).ts[i])
    decreases |run|
  {
    if run != [] { LateBeginsFail(Next(s, run[0]), run[1..], i); }
  }

  predicate PastOpens(t: Thread) { t.DrainIo? || t.Drained? }

  /** Only the drain that locked opens can finish: any other, in particular a retry after the second
      phase timed out, never returns MINI_OK. */
  lemma {:induction false} RetryNeverSucceeds(s: State, run: seq<Action>, i: nat)
    requires Inv(s) && s.opens == -1 && i < |s.ts| && !PastOpens(s.ts[i])
    ensures i < |Run(s, run).ts| && !PastOpens(Run(s, run).ts[i])
    decreases |run|
  {
    if run != [] {
      StepMonotone(s, run[0]);
      StepKeepsInv(s, run[0]);
      RetryNeverSucceeds(Next(s, run[0]), run[1..], i);
    }
  }

  /** So after a phase-two timeout no remove_drain ever returns MINI_OK again. */
  lemma TimedOutDrainIsStuck(s: State, d: nat, run: seq<Action>, i: nat)
    requires Inv(s) && OneDrain(s) && d < |s.ts| && s.ts[d].DrainIo? && i < |s.ts|
    ensures var s' := Run(Next(s, Action(d, GiveUp)), run); i < |s'.ts| && !s'.ts[i].Drained?
  {
    StepKeepsInv(s, Action(d, GiveUp));
    RetryNeverSucceeds(Next(s, Action(d, GiveUp)), run, i);
  }

  /** At most one drain is past the first lock. */
  ghost predicate OneDrain(s: State) {
    && (forall i, j :: 0 <= i < j < |s.ts| ==> !(PastOpens(s.ts[i]) && PastOpens(s.ts[j])))
    && (s.opens != -1 ==> forall i :: 0 <= i < |s.ts| ==> !PastOpens(s.ts[i]))
  }

  lemma StepKeepsOneDrain(s: State, a: Action)
    requires Inv(s) && OneDrain(s)
    ensures OneDrain(Next(s, a))
  {
    StepMonotone(s, a);
  }

  lemma {:induction false} OneDrainSucceeds(s: State, run: seq<Action>)
    requires Inv(s) && OneDrain(s)
    ensures OneDrain(Run(s, run))
    decreases |run|
  {
    if run != [] {
      StepKeepsOneDrain(s, run[0]);
      StepKeepsInv(s, run[0]);
      OneDrainSucceeds(Next(s, run[0]), run[1..]);
    }
  }

  /** In every run from initialisation at most one remove_drain returns MINI_OK. */
  lemma DrainSucceedsOnce(n: nat, run: seq<Action>, i: nat, j: nat)
    requires i < j < |Run(Init(n), run).ts|
    ensures !(Run(Init(n), run).ts[i].Drained? && Run(Init(n), run).ts[j].Drained?)
  {
    InitInv(n);
    OneDrainSucceeds(Init(n), run);
  }

  // ---- When a retry can succeed ----

  lemma {:induction false} RunConcat(s: State, a: seq<Action>, b: seq<Action>)
    ensures Run(s, a + b) == Run(Run(s, a), b)
    decreases |a|
  {
    if a == [] {
      assert a + b == b;
    } else {
      assert (a + b)[1..] == a[1..] + b;
      RunConcat(Next(s, a[0]), a[1..], b);
    }
  }

  lemma RunFirst(s: State, a: Action, rest: seq<Action>)
    ensures Run(s, [a] + rest) == Run(Next(s, a), rest)
  {
    assert ([a] + rest)[1..] == rest;
  }

  lemma RunNone(s: State)
    ensures Run(s, []) == s
  {
  }

  lemma RunThree(s: State, a: Action, b: Action, c: Action)
    ensures Run(s, [a, b, c]) == Next(Next(Next(s, a), b), c)
  {
    RunFirst(s, a, [b, c]);
    RunFirst(Next(s, a), b, [c]);
    assert [a] + [b, c] == [a, b, c] && [b] + [c] == [b, c];
  }

  /** The step with which an activity leaves once the removal has started. */
  function Leave(t: Thread): Step {
    match t
    case Free => GiveUp
    case OpenLoaded(_) => LoadPhase
    case OpenChecked(_) => CasOpens
    case Opened => LoadForClose
    case CloseLoaded(_) => CasClose
    case IoLoaded(_) => LoadPhase
    case IoChecked(_) => CasIo
    case InIo => EndIo
    case DrainOpens => GiveUp
    case DrainIo => GiveUp
    case Drained => GiveUp
  }

  /** How many such steps it needs at most. */
  function Distance(s: State, t: Thread): nat {
    match t
    case Free => 0
    case Opened => 2
    case CloseLoaded(seen) => if seen == s.opens then 1 else 3
    case OpenChecked(_) => 3
    case IoChecked(_) => 2
    case _ => 1
  }

  /** A removal under way that no drain has locked yet. */
  ghost predicate Open(s: State) {
    Inv(s) && s.phase == REMOVING && s.opens != -1
  }

  lemma LeaveStep(s: State, i: nat)
    requires Open(s) && i < |s.ts| && !PastOpens(s.ts[i]) && s.ts[i] != Free
    ensures var s' := Next(s, Action(i, Leave(s.ts[i])));
            && Open(s') && s'.ts == s.ts[i := s'.ts[i]] && !PastOpens(s'.ts[i])
            && Distance(s', s'.ts[i]) < Distance(s, s.ts[i])
  {
    hide Count;
    var a := Action(i, Leave(s.ts[i]));
    StepKeepsInv(s, a);
    StepMonotone(s, a);
    HeldByOne(s, i);
  }

  /** Any activity can be brought to hold nothing, whatever the others do. */
  lemma {:induction false} CanLeave(s: State, i: nat) returns (run: seq<Action>)
    requires Open(s) && i < |s.ts| && !PastOpens(s.ts[i])
    ensures Open(Run(s, run)) && Run(s, run).ts == s.ts[i := Free]
    decreases Distance(s, s.ts[i])
  {
    hide Inv;
    if s.ts[i] == Free {
      run := [];
      assert s.ts[i := Free] == s.ts;
    } else {
      var a := Action(i, Leave(s.ts[i]));
      var s' := Next(s, a);
      LeaveStep(s, i);
      var rest := CanLeave(s', i);
      run := [a] + rest;
      assert run[1..] == rest;
      assert s'.ts[i := Free] == s.ts[i := Free];
    }
  }

  ghost predicate FreeFrom(s: State, k: nat) {
    forall i :: k <= i < |s.ts| ==> s.ts[i] == Free
  }

  ghost predicate NoneLocked(s: State) {
    forall i :: 0 <= i < |s.ts| ==> !PastOpens(s.ts[i])
  }

  lemma {:induction false} AllCanLeave(s: State, k: nat) returns (run: seq<Action>)
    requires Open(s) && NoneLocked(s) && k <= |s.ts| && FreeFrom(s, k)
    ensures Open(Run(s, run)) && |Run(s, run).ts| == |s.ts| && FreeFrom(Run(s, run), 0)
    decreases k
  {
    hide Open;
    if k == 0 {
      run := [];
    } else {
      var first := CanLeave(s, k - 1);
      var rest := AllCanLeave(Run(s, first), k - 1);
      run := first + rest;
      RunConcat(s, first, rest);
    }
  }

  lemma RemovalStarts(s: State, i: nat)
    requires i < |s.ts| && s.ts[i] == Free
    ensures Next(s, Action(i, RemoveStart)) == s.(phase := REMOVING, ts := s.ts[i := Free])
  {
  }

  lemma DrainBegins(s: State, i: nat)
    requires i < |s.ts| && s.ts[i] == Free && s.phase == REMOVING
    ensures Next(s, Action(i, LoadForDrain)) == s.(ts := s.ts[i := DrainOpens])
  {
  }

  lemma DrainLocksOpens(s: State, i: nat)
    requires i < |s.ts| && s.ts[i] == DrainOpens && s.opens == 0
    ensures Next(s, Action(i, LockOpens)) == s.(opens := -1, ts := s.ts[i := DrainIo])
  {
  }

  /** The second lock is taken or refused; a drain that gives up is free again. */
  lemma DrainLocksIo(s: State, i: nat)
    requires i < |s.ts| && s.ts[i] == DrainIo
    ensures Next(s, Action(i, LockIo)) == if s.io == 0 then s.(io := -1, ts := s.ts[i := Drained]) else s
    ensures Next(s, Action(i, GiveUp)) == s.(ts := s.ts[i := Free])
  {
    assert s.ts[i := DrainIo] == s.ts;
  }

  /** With nobody left, a drain runs through. */
  lemma EmptyDrains(s: State)
    requires Open(s) && FreeFrom(s, 0) && |s.ts| > 0
    ensures Run(s, [Action(0, LoadForDrain), Action(0, LockOpens), Action(0, LockIo)]).ts[..1] == [Drained]
  {
    CountZero(s.ts, HoldsOpen);
    CountZero(s.ts, HoldsIo);
    assert s.opens == 0 && s.io == 0;
    hide Count;
    hide Run;
    hide Next;
    hide Inv;
    var a, b, c := Action(0, LoadForDrain), Action(0, LockOpens), Action(0, LockIo);
    var s1 := s.(ts := s.ts[0 := DrainOpens]);
    var s2 := s1.(opens := -1, ts := s1.ts[0 := DrainIo]);
    var s3 := s2.(io := -1, ts := s2.ts[0 := Drained]);
    DrainBegins(s, 0);
    DrainLocksOpens(s1, 0);
    DrainLocksIo(s2, 0);
    RunThree(s, a, b, c);
  }

  ghost predicate Succeeded(s: State) {
    exists i :: 0 <= i < |s.ts| && s.ts[i].Drained?
  }

  /** Some continuation lets a remove_drain return MINI_OK. */
  ghost predicate CanDrain(s: State) {
    exists run :: Succeeded(Run(s, run))
  }

  /** With a removal started and no drain past its first lock, in any reachable state a drain can still
      succeed if and only if opens is not locked. */
  lemma RetrySucceedsIff(n: nat, before: seq<Action>)
    requires n > 0
    requires var s := Run(Init(n), before); s.phase == REMOVING && NoneLocked(s)
    ensures var s := Run(Init(n), before); CanDrain(s) <==> s.opens != -1
  {
    var s := Run(Init(n), before);
    InitInv(n);
    RunKeepsInv(Init(n), before);
    LockIsPermanent(Init(n), before);
    if s.opens != -1 {
      DrainAfterLeaving(s);
    } else {
      forall run ensures !Succeeded(Run(s, run)) {
        NeverDrained(s, run);
      }
    }
  }

  lemma DrainAfterLeaving(s: State)
    requires Open(s) && NoneLocked(s) && |s.ts| > 0
    ensures CanDrain(s)
  {
    hide Open;
    var run := AllCanLeave(s, |s.ts|);
    var left := Run(s, run);
    var last := [Action(0, LoadForDrain), Action(0, LockOpens), Action(0, LockIo)];
    EmptyDrains(left);
    RunConcat(s, run, last);
    assert Run(left, last).ts[0] == Run(left, last).ts[..1][0];
    assert Succeeded(Run(s, run + last));
  }

  lemma NeverDrained(s: State, run: seq<Action>)
    requires Inv(s) && s.opens == -1 && NoneLocked(s)
    ensures !Succeeded(Run(s, run))
  {
    LockIsPermanent(s, run);
    forall i | 0 <= i < |s.ts| ensures !Run(s, run).ts[i].Drained? {
      RetryNeverSucceeds(s, run, i);
    }
  }

  /** Both outcomes occur: an ordinary run reaches a phase-two timeout, after which opens is locked,
      nobody drains any more, and no drain can ever succeed. */
  lemma TimeoutIsReachable() returns (run: seq<Action>)
    ensures var s := Run(Init(2), run);
            && s.phase == REMOVING && s.opens == -1 && s.ts == [InIo, Free] && !CanDrain(s)
  {
    var enter := [Action(0, LoadIo), Action(0, LoadPhase), Action(0, CasIo)];
    var leave := [Action(1, RemoveStart), Action(1, LoadForDrain), Action(1, LockOpens), Action(1, LockIo), Action(1, GiveUp)];
    run := enter + leave;
    var s0 := State(0, 0, LIVE, [Free, Free]);
    assert Init(2) == s0;
    var busy := EnterIo(s0);
    RunConcat(s0, enter, leave);
    DrainTimesOut(busy);
    InitInv(2);
    RunKeepsInv(Init(2), run);
    var s := Run(Init(2), run);
    forall more ensures !Succeeded(Run(s, more)) {
      NeverDrained(s, more);
    }
  }

  lemma EnterIo(s: State) returns (busy: State)
    requires s == State(0, 0, LIVE, [Free, Free])
    ensures busy == State(0, 1, LIVE, [InIo, Free])
    ensures Run(s, [Action(0, LoadIo), Action(0, LoadPhase), Action(0, CasIo)]) == busy
  {
    hide Run;
    busy := State(0, 1, LIVE, [InIo, Free]);
    var a, b, c := Action(0, LoadIo), Action(0, LoadPhase), Action(0, CasIo);
    var s1 := Next(s, a);
    assert s1 == State(0, 0, LIVE, [IoLoaded(0), Free]);
    var s2 := Next(s1, b);
    assert s2 == State(0, 0, LIVE, [IoChecked(0), Free]);
    assert Next(s2, c) == busy;
    RunThree(s, a, b, c);
  }

  lemma DrainTimesOut(s: State)
    requires s == State(0, 1, LIVE, [InIo, Free])
    ensures Run(s, [Action(1, RemoveStart), Action(1, LoadForDrain), Action(1, LockOpens), Action(1, LockIo), Action(1, GiveUp)])
         == State(-1, 1, REMOVING, [InIo, Free])
  {
    hide Run;
    hide Next;
    var a, b, c := Action(1, RemoveStart), Action(1, LoadForDrain), Action(1, LockOpens);
    var d, e := Action(1, LockIo), Action(1, GiveUp);
    var s1 := State(0, 1, REMOVING, [InIo, Free]);
    RemovalStarts(s, 1);
    assert s.ts[1 := Free] == s.ts;
    DrainBegins(s1, 1);
    var s2 := State(0, 1, REMOVING, [InIo, DrainOpens]);
    assert s1.ts[1 := DrainOpens] == s2.ts;
    DrainLocksOpens(s2, 1);
    var s3 := State(-1, 1, REMOVING, [InIo, DrainIo]);
    assert s2.ts[1 := DrainIo] == s3.ts;
    DrainLocksIo(s3, 1);
    assert s3.ts[1 := Free] == [InIo, Free];
    RunThree(s, a, b, c);
    assert [a, b, c, d, e] == [a, b, c] + [d, e];
    RunConcat(s, [a, b, c], [d, e]);
    RunFirst(s3, d, [e]);
    RunFirst(s3, e, []);
    assert [d] + [e] == [d, e] && [e] + [] == [e];
    RunNone(State(-1, 1, REMOVING, [InIo, Free]));
  }
}
