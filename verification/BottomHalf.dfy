/** The interrupt bottom half: work items with pending, executing and rerun flags, a bounded
    queue and a polled drain flag, as single steps of the consumer interleaved with submits
    from interrupt handlers. */
module BottomHalf {

  /** Where bottom_half_poller_run and bottom_half_run_pending stand between two of their
      loads and stores. */
  datatype Pc =
    | Idle              // outside the poller
    | Seen              // pending_drain was set
    | Loop              // about to pop
    | Popped(w: nat)    // popped, executing still clear
    | Armed(w: nat)     // executing set, fn not yet entered
    | InFn(w: nat)      // fn entered
    | AfterFn(w: nat)   // executing cleared, pending still set
    | Cleared(w: nat)   // about to exchange rerun
    | Rerun(w: nat)     // rerun taken, about to claim pending
    | Claimed(w: nat)   // pending claimed, about to push
    | Refused(w: nat)   // queue full, pending still claimed
    | Inline(w: nat)    // pending given back, fn to be run in place
    | InlineArmed(w: nat)
    | InlineFn(w: nat)

  /** The three flags as the sets of work items that have them; `starts` is the history of entries
      into fn. */
  datatype State = State(cap: nat, queue: seq<nat>, drain: bool, pending: set<nat>, executing: set<nat>,
                         rerun: set<nat>, pc: Pc, starts: seq<nat>)

  datatype Action = Submit(work: nat) | Consume

  predicate Accepts(s: State, w: nat) {
    w in s.pending || |s.queue| < s.cap
  }

  /** bottom_half_poller_submit, from an interrupt handler and so in one piece. */
  function Submitted(s: State, w: nat): State {
    if w in s.pending then
      s.(rerun := if w in s.executing then s.rerun + {w} else s.rerun, drain := true)
    else if |s.queue| < s.cap then
      s.(pending := s.pending + {w}, queue := s.queue + [w], drain := true)
    else s
  }

  /** One load or store of the consumer. */
  function Consumed(s: State): State {
    match s.pc
    case Idle => if s.drain then s.(pc := Seen) else s
    case Seen => s.(drain := false, pc := Loop)
    case Loop => if s.queue == [] then s.(pc := Idle) else s.(queue := s.queue[1..], pc := Popped(s.queue[0]))
    case Popped(w) => s.(executing := s.executing + {w}, pc := Armed(w))
    case Armed(w) => s.(starts := s.starts + [w], pc := InFn(w))
    case InFn(w) => s.(executing := s.executing - {w}, pc := AfterFn(w))
    case AfterFn(w) => s.(pending := s.pending - {w}, pc := Cleared(w))
    case Cleared(w) => if w in s.rerun then s.(rerun := s.rerun - {w}, pc := Rerun(w)) else s.(pc := Loop)
    case Rerun(w) => if w in s.pending then s.(pc := Loop) else s.(pending := s.pending + {w}, pc := Claimed(w))
    case Claimed(w) => if |s.queue| < s.cap then s.(queue := s.queue + [w], pc := Loop) else s.(pc := Refused(w))
    case Refused(w) => s.(pending := s.pending - {w}, pc := Inline(w))
    case Inline(w) => s.(executing := s.executing + {w}, pc := InlineArmed(w))
    case InlineArmed(w) => s.(starts := s.starts + [w], pc := InlineFn(w))
    case InlineFn(w) => s.(executing := s.executing - {w}, pc := Cleared(w))
  }

  function Next(s: State, a: Action): State {
    match a
    case Submit(w) => Submitted(s, w)
    case Consume => Consumed(s)
  }

  function Init(cap: nat): State {
    State(cap, [], false, {}, {}, {}, Idle, [])
  }

  function Run(s: State, run: seq<Action>): State
    decreases |run|
  {
    if run == [] then s else Run(Next(s, run[0]), run[1..])
  }

  // ---- The invariant ----

  /** Items the consumer holds with pending set although they are not queued. */
  predicate Holds(pc: Pc, w: nat) {
    (pc.Popped? || pc.Armed? || pc.InFn? || pc.AfterFn? || pc.Claimed? || pc.Refused?) && pc.w == w
  }

  predicate Runs(pc: Pc, w: nat) {
    (pc.Armed? || pc.InFn? || pc.InlineArmed? || pc.InlineFn?) && pc.w == w
  }

  predicate MayRerun(pc: Pc, w: nat) {
    Runs(pc, w) || ((pc.AfterFn? || pc.Cleared?) && pc.w == w)
  }

  ghost predicate Inv(s: State) {
    && |s.queue| <= s.cap
    && (forall i, j :: 0 <= i < j < |s.queue| ==> s.queue[i] != s.queue[j])
    && (forall w :: w in s.pending <==> w in s.queue || Holds(s.pc, w))
    && (forall w :: Holds(s.pc, w) ==> w !in s.queue)
    && (forall w :: w in s.executing <==> Runs(s.pc, w))
    && (forall w :: w in s.rerun ==> MayRerun(s.pc, w))
    && (s.pc.Idle? && s.queue != [] ==> s.drain)
    && (s.pc.Seen? ==> s.drain)
  }

  lemma SubmitKeepsInv(s: State, w: nat)
    requires Inv(s)
    ensures Inv(Submitted(s, w))
  {
  }

  lemma ConsumeKeepsInv(s: State)
    requires Inv(s)
    ensures Inv(Consumed(s))
  {
    hide Inv;
    match s.pc {
      case Loop => if s.queue != [] { PopKeepsInv(s); } else { FlagsKeepInv(s); }
      case Claimed(_) => if |s.queue| < s.cap { PushKeepsInv(s); } else { FlagsKeepInv(s); }
      case _ => FlagsKeepInv(s);
    }
  }

  lemma PopKeepsInv(s: State)
    requires Inv(s) && s.pc.Loop? && s.queue != []
    ensures Inv(Consumed(s))
  {
    var head, rest := s.queue[0], s.queue[1..];
    assert s.queue == [head] + rest;
    forall j | 0 <= j < |rest|
      ensures rest[j] == s.queue[j + 1] && rest[j] != head
    {
    }
  }

  lemma PushKeepsInv(s: State)
    requires Inv(s) && s.pc.Claimed? && |s.queue| < s.cap
    ensures Inv(Consumed(s))
  {
    assert Holds(s.pc, s.pc.w);
  }

  /** Every step that leaves the queue alone. */
  lemma FlagsKeepInv(s: State)
    requires Inv(s) && Consumed(s).queue == s.queue
    ensures Inv(Consumed(s))
  {
  }

  lemma {:induction false} RunKeepsInv(s: State, run: seq<Action>)
    requires Inv(s)
    ensures Inv(Run(s, run))
    decreases |run|
  {
    if run != [] {
      match run[0] {
        case Submit(w) => SubmitKeepsInv(s, w);
        case Consume => ConsumeKeepsInv(s);
      }
      RunKeepsInv(Next(s, run[0]), run[1..]);
    }
  }

  /** In every run an item is queued at most once and only while pending, and work left in the
      queue outside the poller keeps pending_drain set. */
  lemma QueuedOnceWhilePending(cap: nat, run: seq<Action>)
    ensures var s := Run(Init(cap), run);
            && |s.queue| <= cap
            && (forall i, j :: 0 <= i < j < |s.queue| ==> s.queue[i] != s.queue[j])
            && (forall i :: 0 <= i < |s.queue| ==> s.queue[i] in s.pending)
            && (s.pc.Idle? && s.queue != [] ==> s.drain)
  {
    RunKeepsInv(Init(cap), run);
    CapKept(Init(cap), run);
  }

  lemma {:induction false} CapKept(s: State, run: seq<Action>)
    ensures Run(s, run).cap == s.cap
    decreases |run|
  {
    if run != [] { CapKept(Next(s, run[0]), run[1..]); }
  }

  // ---- No accepted submit is forgotten ----

  /** The consumer itself is going to enter w's fn, or is putting w back into the queue. */
  predicate Due(pc: Pc, w: nat) {
    && (pc.Popped? || pc.Armed? || pc.Rerun? || pc.Claimed? || pc.Refused? || pc.Inline? || pc.InlineArmed?)
    && pc.w == w
  }

  predicate Owed(s: State, w: nat) {
    w in s.queue || w in s.rerun || Due(s.pc, w)
  }

  /** The two stores that clear executing and then pending leave a window. */
  predicate InWindow(s: State, w: nat) {
    s.pc == AfterFn(w) && w !in s.rerun
  }

  /** An accepted submit is owed a later start of fn exactly when it does not land in the window. */
  lemma SubmitIsOwedIff(s: State, w: nat)
    requires Inv(s) && Accepts(s, w)
    ensures Owed(Submitted(s, w), w) <==> !InWindow(s, w)
  {
    if w in s.pending && w !in s.queue {
      assert Holds(s.pc, w);
      assert w in s.executing <==> Runs(s.pc, w);
    }
  }

  predicate StartsFn(s: State, a: Action, w: nat) {
    a.Consume? && (s.pc == Armed(w) || s.pc == InlineArmed(w))
  }

  /** What is owed stays owed through every step except the start itself. */
  lemma OwedPersists(s: State, a: Action, w: nat)
    requires Inv(s) && Owed(s, w)
    ensures Owed(Next(s, a), w) || (StartsFn(s, a, w) && Next(s, a).starts == s.starts + [w])
  {
    if a.Consume? && s.pc.Loop? && w in s.queue {
      assert s.queue == [s.queue[0]] + s.queue[1..];
    }
    if a.Consume? && s.pc == Rerun(w) && w in s.pending {
      assert !Holds(s.pc, w);
    }
  }

  lemma StartsGrow(s: State, a: Action)
    ensures s.starts <= Next(s, a).starts
  {
  }

  lemma {:induction false} RunStartsGrow(s: State, run: seq<Action>)
    ensures s.starts <= Run(s, run).starts
    decreases |run|
  {
    if run != [] {
      StartsGrow(s, run[0]);
      RunStartsGrow(Next(s, run[0]), run[1..]);
    }
  }

  /** Over any continuation, an owed item is started or still owed. */
  lemma {:induction false} OwedUntilStarted(s: State, run: seq<Action>, w: nat)
    requires Inv(s) && Owed(s, w)
    ensures |s.starts| <= |Run(s, run).starts|
    ensures Owed(Run(s, run), w) || w in Run(s, run).starts[|s.starts|..]
    decreases |run|
  {
    RunStartsGrow(s, run);
    if run != [] {
      var s', rest := Next(s, run[0]), run[1..];
      OwedPersists(s, run[0], w);
      StartsGrow(s, run[0]);
      RunStartsGrow(s', rest);
      if Owed(s', w) {
        RunKeepsInv(s, run[..1]);
        assert run[..1] == [run[0]] && Run(s, [run[0]]) == s';
        OwedUntilStarted(s', rest, w);
        var end := Run(s', rest).starts;
        assert end[|s.starts|..] == end[|s.starts|..|s'.starts|] + end[|s'.starts|..];
      } else {
        assert Run(s', rest).starts[|s.starts|] == w;
      }
    }
  }

  /** Outside the poller with an empty queue nothing is owed. */
  lemma NothingOwedAtRest(s: State, w: nat)
    requires Inv(s) && s.pc.Idle? && s.queue == []
    ensures !Owed(s, w)
  {
    assert !MayRerun(s.pc, w);
  }

  // ---- The consumer alone drains everything ----

  function Stage(pc: Pc): nat {
    match pc
    case Seen => 0
    case Idle => 1
    case Loop => 2
    case Cleared(_) => 3
    case AfterFn(_) => 4
    case InFn(_) => 5
    case Armed(_) => 6
    case Popped(_) => 7
    case InlineFn(_) => 4
    case InlineArmed(_) => 5
    case Inline(_) => 6
    case Refused(_) => 7
    case Claimed(_) => 9
    case Rerun(_) => 10
  }

  /** An upper bound on the consumer steps left when no more submits arrive. */
  function Work(s: State): nat {
    Stage(s.pc) + 6 * |s.queue| + 8 * |s.rerun| + if s.drain then 10 else 0
  }

  predicate AtRest(s: State) {
    s.pc.Idle? && !s.drain
  }

  lemma ConsumeProgresses(s: State)
    requires Inv(s) && !AtRest(s)
    ensures Work(Consumed(s)) < Work(s)
  {
    if s.pc.Cleared? && s.pc.w in s.rerun {
      assert |s.rerun - {s.pc.w}| == |s.rerun| - 1;
    }
  }

  function Polls(n: nat): seq<Action> {
    seq(n, _ => Consume)
  }

  /** Work(s) steps of the consumer without a submit in between bring it to rest with nothing owed,
      and every item owed before has had its fn started. */
  lemma {:induction false} DrainStartsAllOwed(s: State)
    requires Inv(s)
    ensures exists n :: 0 <= n <= Work(s) && Drained(s, Run(s, Polls(n)))
    decreases Work(s)
  {
    if AtRest(s) {
      forall w ensures !Owed(s, w) { NothingOwedAtRest(s, w); }
      assert Run(s, Polls(0)) == s;
      assert Drained(s, Run(s, Polls(0)));
    } else {
      var s' := Consumed(s);
      ConsumeKeepsInv(s);
      ConsumeProgresses(s);
      DrainStartsAllOwed(s');
      var n :| 0 <= n <= Work(s') && Drained(s', Run(s', Polls(n)));
      assert Polls(n + 1)[1..] == Polls(n);
      assert Run(s, Polls(n + 1)) == Run(s', Polls(n));
      DrainedEarlier(s, Run(s', Polls(n)), Polls(n + 1));
    }
  }

  /** At rest, and everything owed in s has been started since. */
  ghost predicate Drained(s: State, end: State) {
    && AtRest(end) && end.queue == [] && s.starts <= end.starts
    && (forall w :: !Owed(end, w))
    && (forall w :: Owed(s, w) ==> w in end.starts[|s.starts|..])
  }

  lemma DrainedEarlier(s: State, end: State, run: seq<Action>)
    requires Inv(s) && end == Run(s, run) && AtRest(end) && end.queue == [] && forall w :: !Owed(end, w)
    ensures Drained(s, end)
  {
    RunStartsGrow(s, run);
    forall w | Owed(s, w) ensures w in end.starts[|s.starts|..] {
      OwedUntilStarted(s, run, w);
    }
  }

  // ---- Whole runs ----

  /** In a run that ends at rest with an empty queue, every accepted submit outside the window is
      followed by a start of its fn. */
  lemma EverySubmitIsServed(cap: nat, before: seq<Action>, w: nat, after: seq<Action>)
    requires var s := Run(Init(cap), before); Accepts(s, w) && !InWindow(s, w)
    requires var end := Run(Submitted(Run(Init(cap), before), w), after); end.pc.Idle? && end.queue == []
    ensures var s := Run(Init(cap), before);
            var end := Run(Submitted(s, w), after);
            |s.starts| <= |end.starts| && w in end.starts[|s.starts|..]
  {
    var s := Run(Init(cap), before);
    RunKeepsInv(Init(cap), before);
    SubmitIsOwedIff(s, w);
    SubmitKeepsInv(s, w);
    OwedUntilStarted(Submitted(s, w), after, w);
    RunKeepsInv(Submitted(s, w), after);
    NothingOwedAtRest(Run(Submitted(s, w), after), w);
  }

  /** In the window the submit is reported accepted, changes no flag of the item, and the consumer
      comes to rest without another start: the two runs differ in pending_drain alone. */
  lemma WindowSubmitIsAbsorbed(s: State, w: nat)
    requires Inv(s) && InWindow(s, w)
    ensures Accepts(s, w) && Submitted(s, w) == s.(drain := true) && !Owed(Submitted(s, w), w)
  {
    assert Holds(s.pc, w);
    assert !Runs(s.pc, w);
  }

  lemma PollsNone(s: State)
    ensures Run(s, Polls(0)) == s
  {
  }

  lemma PollsStep(s: State, n: nat)
    ensures Run(s, Polls(n + 1)) == Run(Consumed(s), Polls(n))
  {
    assert Polls(n + 1)[1..] == Polls(n);
  }

  /** What is not owed stays so, and its fn is not entered, until the item is submitted again. */
  lemma {:induction false} NotOwedIsNotStarted(s: State, run: seq<Action>, w: nat)
    requires Inv(s) && !Owed(s, w) && forall i :: 0 <= i < |run| ==> run[i] != Submit(w)
    ensures |s.starts| <= |Run(s, run).starts|
    ensures !Owed(Run(s, run), w) && w !in Run(s, run).starts[|s.starts|..]
    decreases |run|
  {
    RunStartsGrow(s, run);
    if run != [] {
      var s', rest := Next(s, run[0]), run[1..];
      NotOwedStep(s, run[0], w);
      RunStartsGrow(s', rest);
      NotOwedIsNotStarted(s', rest, w);
      var end := Run(s', rest).starts;
      assert end[|s.starts|..] == s'.starts[|s.starts|..] + end[|s'.starts|..];
    }
  }

  lemma NotOwedStep(s: State, a: Action, w: nat)
    requires Inv(s) && !Owed(s, w) && a != Submit(w)
    ensures Inv(Next(s, a)) && !Owed(Next(s, a), w)
    ensures s.starts <= Next(s, a).starts && w !in Next(s, a).starts[|s.starts|..]
  {
    match a {
      case Submit(x) => SubmitKeepsInv(s, x);
      case Consume =>
        ConsumeKeepsInv(s);
        if s.pc.Loop? && s.queue != [] { assert s.queue == [s.queue[0]] + s.queue[1..]; }
    }
  }

  /** The exact condition: over any continuation that does not submit the item again and comes to rest
      with an empty queue, an accepted submit is followed by a start of its fn if and only if it did not
      land in the window. */
  lemma ServedIff(cap: nat, before: seq<Action>, w: nat, after: seq<Action>)
    requires Accepts(Run(Init(cap), before), w) && forall i :: 0 <= i < |after| ==> after[i] != Submit(w)
    requires var end := Run(Submitted(Run(Init(cap), before), w), after); end.pc.Idle? && end.queue == []
    ensures var s := Run(Init(cap), before);
            var end := Run(Submitted(s, w), after);
            |s.starts| <= |end.starts| && (w in end.starts[|s.starts|..] <==> !InWindow(s, w))
  {
    var s := Run(Init(cap), before);
    RunKeepsInv(Init(cap), before);
    if InWindow(s, w) {
      WindowSubmitIsAbsorbed(s, w);
      SubmitKeepsInv(s, w);
      NotOwedIsNotStarted(Submitted(s, w), after, w);
    } else {
      EverySubmitIsServed(cap, before, w, after);
    }
  }

  // ---- Order ----

  /** In the starts since some moment, each start of v comes after one of w. */
  ghost predicate After(starts: seq<nat>, w: nat, v: nat) {
    forall q :: 0 <= q < |starts| && starts[q] == v ==> w in starts[..q]
  }

  /** The consumer is just about to run v in place. */
  predicate AboutToRun(s: State, v: nat) {
    s.pc == Inline(v) || s.pc == InlineArmed(v)
  }

  /** w is taken from the queue before v is: it stands before it, or is already taken and not yet started. */
  ghost predicate Ahead(s: State, w: nat, v: nat) {
    && v in s.queue && !AboutToRun(s, v)
    && (s.pc == Popped(w) || s.pc == Armed(w) || exists i, j :: 0 <= i < j < |s.queue| && s.queue[i] == w && s.queue[j] == v)
  }

  lemma AheadStep(s: State, a: Action, w: nat, v: nat)
    requires Inv(s) && Ahead(s, w, v) && w != v
    ensures var s' := Next(s, a);
            s.starts <= s'.starts && (s'.starts == s.starts + [w] || (Ahead(s', w, v) && v !in s'.starts[|s.starts|..]))
  {
    hide Inv;
    assert v in s.queue;
    hide Ahead;
    InvPieces(s, v);
    match a {
      case Submit(x) => AheadSubmit(s, x, w, v);
      case Consume => if s.pc.Loop? { AheadPop(s, w, v); } else { AheadConsume(s, w, v); }
    }
  }

  lemma AheadSubmit(s: State, x: nat, w: nat, v: nat)
    requires Ahead(s, w, v)
    ensures Ahead(Submitted(s, x), w, v) && Submitted(s, x).starts == s.starts
  {
    AheadLonger(s, Submitted(s, x), w, v);
  }

  /** Items are only added behind. */
  lemma AheadLonger(s: State, s': State, w: nat, v: nat)
    requires Ahead(s, w, v) && s.queue <= s'.queue && !AboutToRun(s', v)
    requires s.pc == Popped(w) || s.pc == Armed(w) ==> s'.pc == Popped(w) || s'.pc == Armed(w)
    ensures Ahead(s', w, v)
  {
    hide AboutToRun;
    assert v in s'.queue by {
      var k :| 0 <= k < |s.queue| && s.queue[k] == v;
      assert s'.queue[k] == v;
    }
    if s.pc != Popped(w) && s.pc != Armed(w) {
      var i, j :| 0 <= i < j < |s.queue| && s.queue[i] == w && s.queue[j] == v;
      assert s'.queue[i] == w && s'.queue[j] == v;
    }
  }

  lemma AheadConsume(s: State, w: nat, v: nat)
    requires Ahead(s, w, v) && w != v && !s.pc.Loop? && !Holds(s.pc, v) && v in s.pending
    ensures var s' := Consumed(s);
            s.starts <= s'.starts && (s'.starts == s.starts + [w] || (Ahead(s', w, v) && v !in s'.starts[|s.starts|..]))
  {
    assert !AboutToRun(s, v);
    hide Ahead;
    ConsumeStep(s, w, v);
    hide Consumed;
    if Consumed(s).starts != s.starts + [w] { AheadLonger(s, Consumed(s), w, v); }
  }

  /** A step of the consumer that takes nothing from the queue. */
  lemma ConsumeStep(s: State, w: nat, v: nat)
    requires !s.pc.Loop? && !Holds(s.pc, v) && v in s.pending && !AboutToRun(s, v)
    ensures var s' := Consumed(s);
            && s.queue <= s'.queue && !AboutToRun(s', v) && s.starts <= s'.starts && v !in s'.starts[|s.starts|..]
            && (s.pc == Armed(w) ==> s'.starts == s.starts + [w])
            && (s.pc == Popped(w) ==> s'.pc == Armed(w))
  {
  }

  lemma InvPieces(s: State, v: nat)
    requires Inv(s) && v in s.queue
    ensures !Holds(s.pc, v) && v in s.pending
    ensures forall i, j :: 0 <= i < j < |s.queue| ==> s.queue[i] != s.queue[j]
  {
  }

  /** The oldest queued item is taken. */
  lemma AheadPop(s: State, w: nat, v: nat)
    requires Ahead(s, w, v) && w != v && s.pc.Loop?
    requires forall i, j :: 0 <= i < j < |s.queue| ==> s.queue[i] != s.queue[j]
    ensures Ahead(Consumed(s), w, v) && Consumed(s).starts == s.starts
  {
    var i, j :| 0 <= i < j < |s.queue| && s.queue[i] == w && s.queue[j] == v;
    var rest := s.queue[1..];
    assert rest[j - 1] == v;
    if i > 0 { assert rest[i - 1] == w; }
  }

  lemma {:induction false} AheadRuns(s: State, run: seq<Action>, w: nat, v: nat)
    requires Inv(s) && Ahead(s, w, v) && w != v
    ensures s.starts <= Run(s, run).starts && After(Run(s, run).starts[|s.starts|..], w, v)
    decreases |run|
  {
    hide Ahead;
    hide Inv;
    RunStartsGrow(s, run);
    if run != [] {
      var s', rest := Next(s, run[0]), run[1..];
      var end := Run(s', rest).starts;
      AheadStep(s, run[0], w, v);
      RunStartsGrow(s', rest);
      NextKeepsInv(s, run[0]);
      assert end[|s.starts|..] == s'.starts[|s.starts|..] + end[|s'.starts|..];
      if s'.starts == s.starts + [w] {
        StartsWithIt(end[|s.starts|..], w, v);
      } else {
        AheadRuns(s', rest, w, v);
        AfterMore(s'.starts[|s.starts|..], end[|s'.starts|..], w, v);
      }
    }
  }

  lemma NextKeepsInv(s: State, a: Action)
    requires Inv(s)
    ensures Inv(Next(s, a))
  {
    match a {
      case Submit(w) => SubmitKeepsInv(s, w);
      case Consume => ConsumeKeepsInv(s);
    }
  }

  lemma StartsWithIt(starts: seq<nat>, w: nat, v: nat)
    requires starts != [] && starts[0] == w && w != v
    ensures After(starts, w, v)
  {
    forall q | 0 <= q < |starts| && starts[q] == v ensures w in starts[..q] { assert starts[..q][0] == w; }
  }

  lemma AfterMore(a: seq<nat>, z: seq<nat>, w: nat, v: nat)
    requires v !in a && After(z, w, v)
    ensures After(a + z, w, v)
  {
    forall q | 0 <= q < |a + z| && (a + z)[q] == v ensures w in (a + z)[..q] {
      assert z[q - |a|] == v;
      assert (a + z)[..q] == a + z[..q - |a|];
    }
  }

  /** From the refused push until fn was run in place the queue stays full, so that the item cannot get into it. */
  ghost predicate FullInPlace(s: State) {
    s.pc.Refused? || s.pc.Inline? || s.pc.InlineArmed? || s.pc.InlineFn? ==> |s.queue| >= s.cap && s.pc.w !in s.queue
  }

  lemma {:induction false} RunsAreFull(s: State, run: seq<Action>)
    requires Inv(s) && FullInPlace(s)
    ensures FullInPlace(Run(s, run))
    decreases |run|
  {
    if run != [] {
      StepIsFull(s, run[0]);
      NextKeepsInv(s, run[0]);
      RunsAreFull(Next(s, run[0]), run[1..]);
    }
  }

  lemma StepIsFull(s: State, a: Action)
    requires Inv(s) && FullInPlace(s)
    ensures FullInPlace(Next(s, a))
  {
  }

  /** Items are started in the order of the queue: if w stands before v in a reachable state then, however the run
      goes on, v is not started before w is. A rerun in place overtakes nothing that is queued. */
  lemma StartsInOrder(cap: nat, before: seq<Action>, i: nat, j: nat, run: seq<Action>)
    requires i < j < |Run(Init(cap), before).queue|
    ensures var s := Run(Init(cap), before); After(Later(s, run), s.queue[i], s.queue[j])
  {
    hide Run;
    hide After;
    hide Inv;
    var s := Run(Init(cap), before);
    InitKept(cap);
    RunKeepsInv(Init(cap), before);
    RunsAreFull(Init(cap), before);
    InvPieces(s, s.queue[j]);
    AheadRuns(s, run, s.queue[i], s.queue[j]);
  }

  lemma InitKept(cap: nat)
    ensures Inv(Init(cap)) && FullInPlace(Init(cap))
  {
  }

  /** The starts a run adds. */
  function Later(s: State, run: seq<Action>): seq<nat> {
    RunStartsGrow(s, run);
    Run(s, run).starts[|s.starts|..]
  }

  // ---- No start without a submit ----

  function Times(s: seq<nat>, w: nat): nat {
    if s == [] then 0 else Times(s[..|s| - 1], w) + if s[|s| - 1] == w then 1 else 0
  }

  function Submits(run: seq<Action>, w: nat): nat {
    if run == [] then 0 else Submits(run[1..], w) + if run[0] == Submit(w) then 1 else 0
  }

  /** Starts that w has had or is due. */
  function Claims(s: State, w: nat): nat {
    Times(s.starts, w) + (if w in s.queue then 1 else 0) + (if w in s.rerun then 1 else 0) + if Due(s.pc, w) then 1 else 0
  }

  lemma StepClaims(s: State, a: Action, w: nat)
    requires Inv(s)
    ensures Claims(Next(s, a), w) <= Claims(s, w) + if a == Submit(w) then 1 else 0
  {
    hide Inv;
    hide Claims;
    InvClaims(s, w);
    match a {
      case Submit(x) => SubmitClaims(s, x, w);
      case Consume => if s.pc.Loop? && s.queue != [] { PopClaims(s, w); } else { ConsumeClaims(s, w); }
    }
  }

  lemma SubmitClaims(s: State, x: nat, w: nat)
    requires w in s.queue ==> w in s.pending
    ensures Claims(Submitted(s, x), w) <= Claims(s, w) + if x == w then 1 else 0
  {
    hide Times;
  }

  lemma PopClaims(s: State, w: nat)
    requires s.pc.Loop? && s.queue != [] && s.queue[0] !in s.queue[1..]
    ensures Claims(Consumed(s), w) <= Claims(s, w)
  {
    hide Times;
    assert s.queue == [s.queue[0]] + s.queue[1..];
  }

  lemma ConsumeClaims(s: State, w: nat)
    requires !s.pc.Loop? || s.queue == []
    requires (Holds(s.pc, w) ==> w !in s.queue) && (w in s.rerun ==> MayRerun(s.pc, w))
    ensures Claims(Consumed(s), w) <= Claims(s, w)
  {
    hide Times;
    var s' := Consumed(s);
    if s'.starts != s.starts { TimesAppend(s.starts, s'.starts[|s.starts|], w); }
  }

  lemma InvClaims(s: State, w: nat)
    requires Inv(s)
    ensures s.queue != [] ==> s.queue[0] !in s.queue[1..]
    ensures w in s.queue ==> w in s.pending
    ensures Holds(s.pc, w) ==> w !in s.queue
    ensures w in s.rerun ==> MayRerun(s.pc, w)
  {
    if s.queue != [] {
      forall k | 0 <= k < |s.queue[1..]| ensures s.queue[1..][k] != s.queue[0] { assert s.queue[1..][k] == s.queue[k + 1]; }
    }
  }

  lemma TimesAppend(s: seq<nat>, x: nat, w: nat)
    ensures Times(s + [x], w) == Times(s, w) + if x == w then 1 else 0
  {
    assert (s + [x])[..|s|] == s;
  }

  lemma {:induction false} RunClaims(s: State, run: seq<Action>, w: nat)
    requires Inv(s)
    ensures Claims(Run(s, run), w) <= Claims(s, w) + Submits(run, w)
    decreases |run|
  {
    hide Inv;
    hide Claims;
    if run != [] {
      StepClaims(s, run[0], w);
      NextKeepsInv(s, run[0]);
      RunClaims(Next(s, run[0]), run[1..], w);
    }
  }

  /** In every run fn of an item is entered at most as often as it was submitted. */
  lemma StartsAreSubmitted(cap: nat, run: seq<Action>, w: nat)
    ensures Times(Run(Init(cap), run).starts, w) <= Submits(run, w)
  {
    RunClaims(Init(cap), run, w);
  }

  /** A submit that is refused changes nothing, and it is refused exactly when the item is not pending and
      the queue is full. */
  lemma RefusedChangesNothing(s: State, w: nat)
    ensures Submitted(s, w) == s || Accepts(s, w)
    ensures Accepts(s, w) && w !in s.pending ==> Submitted(s, w).queue == s.queue + [w] && Submitted(s, w).drain
    ensures !Accepts(s, w) <==> w !in s.pending && |s.queue| >= s.cap
  {
  }

  /** The window is reachable: submit, poll, run fn. */
  lemma WindowIsReachable()
    ensures exists run :: InWindow(Run(Init(2), run), 7) && Run(Init(2), run).queue == []
  {
    var run := [Submit(7)] + Polls(6);
    assert run[1..] == Polls(6);
    assert Run(Init(2), run) == Run(Submitted(Init(2), 7), Polls(6));
    FirstPoll(2, 7);
  }

  lemma FirstPoll(cap: nat, w: nat)
    requires cap > 0
    ensures var s := Run(Submitted(Init(cap), w), Polls(6)); InWindow(s, w) && s.queue == []
  {
    hide Run;
    var s := Submitted(Init(cap), w);
    assert s == State(cap, [w], true, {w}, {}, {}, Idle, []);
    PollsStep(s, 5);
    PollsStep(State(cap, [w], true, {w}, {}, {}, Seen, []), 4);
    PollsStep(State(cap, [w], false, {w}, {}, {}, Loop, []), 3);
    assert [w][1..] == [];
    PollsStep(State(cap, [], false, {w}, {}, {}, Popped(w), []), 2);
    assert {} + {w} == {w};
    PollsStep(State(cap, [], false, {w}, {w}, {}, Armed(w), []), 1);
    assert [] + [w] == [w];
    PollsStep(State(cap, [], false, {w}, {w}, {}, InFn(w), [w]), 0);
    PollsNone(Consumed(State(cap, [], false, {w}, {w}, {}, InFn(w), [w])));
  }
}
