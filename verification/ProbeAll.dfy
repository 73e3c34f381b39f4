/** The deferred driver probe over the device status table: at most three passes over the probe
    order, dependency checks, cascading disable, and the rules of the device status machine. */
module ProbeAll {

  datatype Status = DISABLED | UNINIT | READY | PROBED | RUNNING | SUSPENDED | ERROR | REMOVED

  /** device_status_can_transit. */
  predicate CanTransit(from: Status, to: Status) {
    from == to ||
    match from
    case DISABLED => to == READY || to == UNINIT
    case UNINIT => to == READY || to == ERROR || to == DISABLED
    case READY => to == PROBED || to == DISABLED || to == ERROR
    case PROBED => to == RUNNING || to == SUSPENDED || to == READY || to == REMOVED || to == ERROR
    case RUNNING => to == SUSPENDED || to == READY || to == REMOVED || to == ERROR || to == PROBED
    case SUSPENDED => to == RUNNING || to == READY || to == REMOVED || to == ERROR
    case ERROR => to == REMOVED
    case REMOVED => to == READY || to == DISABLED
  }

  type Table = seq<Status>

  /** device_set_status: a transition the table does not have leaves the status alone. */
  function SetStatus(st: Table, i: nat, to: Status): (r: Table)
    requires i < |st|
    ensures |r| == |st|
  {
    if CanTransit(st[i], to) then st[i := to] else st
  }

  /** The static description of a device: flags, dependencies, generated probe, and the devices to
      disable when it fails. */
  datatype Device = Device(direct: bool, deps: seq<int>, probes: bool, named: bool, fatal: bool, dependents: seq<int>)

  datatype Board = Board(devs: seq<Device>, order: seq<int>)

  /** Results of the callbacks when a device is probed: the probe's return, whether it installed an open
      or init operation, and whether that succeeds. */
  datatype Ret = Ok | Defer | Fail

  datatype Call = Call(ret: Ret, opens: bool, openOk: bool)

  predicate InRange(b: Board, id: int) {
    0 <= id < |b.devs|
  }

  predicate Fits(b: Board, st: Table) {
    |st| == |b.devs|
  }

  // ---- Dependencies ----

  predicate Broken(b: Board, st: Table, dep: int)
    requires Fits(b, st)
  {
    !InRange(b, dep) || (!b.devs[dep].direct && (st[dep] == ERROR || st[dep] == REMOVED))
  }

  predicate Unfinished(b: Board, st: Table, dep: int)
    requires Fits(b, st)
  {
    !InRange(b, dep) || (!b.devs[dep].direct && st[dep] != PROBED && st[dep] != RUNNING && st[dep] != SUSPENDED)
  }

  /** device_dependency_not_ready. */
  predicate NotReady(b: Board, st: Table, i: nat)
    requires Fits(b, st) && i < |st|
  {
    exists k :: 0 <= k < |b.devs[i].deps| && Broken(b, st, b.devs[i].deps[k])
  }

  /** device_dependency_pending. */
  predicate Pending(b: Board, st: Table, i: nat)
    requires Fits(b, st) && i < |st|
  {
    exists k :: 0 <= k < |b.devs[i].deps| && Unfinished(b, st, b.devs[i].deps[k])
  }

  /** A device that is not ready is always pending, so it is deferred and the branch that would
      disable it for good is never taken. */
  lemma NotReadyIsPending(b: Board, st: Table, i: nat)
    requires Fits(b, st) && i < |st| && NotReady(b, st, i)
    ensures Pending(b, st, i)
  {
    var k :| 0 <= k < |b.devs[i].deps| && Broken(b, st, b.devs[i].deps[k]);
    assert Unfinished(b, st, b.devs[i].deps[k]);
  }

  // ---- One device ----

  /** disable_dependents over the first n entries of the list. */
  function Cascade(b: Board, st: Table, list: seq<int>, n: nat): (r: Table)
    requires Fits(b, st) && n <= |list|
    ensures |r| == |st|
  {
    if n == 0 then st
    else
      var before := Cascade(b, st, list, n - 1);
      var child := list[n - 1];
      if !InRange(b, child) || before[child] == DISABLED || before[child] == REMOVED then before
      else SetStatus(before, child, DISABLED)
  }

  datatype Effect = Skipped | Done | Deferred | Failed | Panicked

  datatype Visited = Visited(st: Table, effect: Effect)

  /** handle_probe_failure, then disable_dependents. */
  function Failure(b: Board, st: Table, i: nat): (r: Visited)
    requires Fits(b, st) && i < |st|
    ensures |r.st| == |st|
  {
    if b.devs[i].fatal then Visited(st, Panicked)
    else Visited(Cascade(b, st, b.devs[i].dependents, |b.devs[i].dependents|), Failed)
  }

  /** device_open on the status alone. */
  function Opened(st: Table, i: nat, openOk: bool): (r: (bool, Table))
    requires i < |st|
    ensures |r.1| == |st|
  {
    if st[i] == RUNNING then (true, st)
    else if st[i] != PROBED || !openOk then (false, st)
    else (true, SetStatus(st, i, RUNNING))
  }

  function AfterProbe(b: Board, st: Table, i: nat, call: Call): (r: Visited)
    requires Fits(b, st) && i < |st|
    ensures |r.st| == |st|
  {
    match call.ret
    case Ok =>
      var probed := SetStatus(st, i, PROBED);
      var (fine, open) := if call.opens then Opened(probed, i, call.openOk) else (true, probed);
      if fine then Visited(open, Done) else Failure(b, SetStatus(open, i, ERROR), i)
    case Defer => Visited(st, Deferred)
    case Fail => Failure(b, SetStatus(st, i, ERROR), i)
  }

  predicate Passed(b: Board, st: Table, id: int)
    requires Fits(b, st)
  {
    !InRange(b, id) || st[id] == DISABLED || b.devs[id].direct || st[id] == PROBED || st[id] == RUNNING
  }

  /** The body of the probe loop for one entry of the order. */
  function Visit(b: Board, st: Table, id: int, call: Call): (r: Visited)
    requires Fits(b, st)
    ensures |r.st| == |st|
  {
    if Passed(b, st, id) then Visited(st, Skipped)
    else if NotReady(b, st, id) then
      if Pending(b, st, id) then Visited(st, Deferred) else Visited(SetStatus(st, id, DISABLED), Failed)
    else if !b.devs[id].probes then
      var off := SetStatus(st, id, DISABLED);
      if b.devs[id].named then Failure(b, off, id) else Visited(off, Skipped)
    else AfterProbe(b, st, id, call)
  }

  // ---- Passes ----

  /** A device that became RUNNING, with the table at the time its probe was called. */
  datatype Boot = Boot(id: int, at: Table)

  /** One turn of a loop over the order: the entry, the pass (3 for the loop after a stall), the table it met,
      and what the callbacks would answer. */
  datatype Turn = Turn(id: int, round: nat, at: Table, call: Call)

  const STALL: nat := 3

  /** The counters of a pass and, as history, all turns, the devices brought up, and all tables before this
      one. */
  datatype Tally = Tally(st: Table, deferred: nat, fail: nat, panicked: bool, turns: seq<Turn>, boots: seq<Boot>,
                         past: seq<Table>)

  function Begin(st: Table): Tally {
    Tally(st, 0, 0, false, [], [], [])
  }

  function Count(b: Board, t: Tally, pass: nat, id: int, call: Call): (r: Tally)
    requires Fits(b, t.st)
    ensures Fits(b, r.st)
  {
    var v := Visit(b, t.st, id, call);
    var up := InRange(b, id) && t.st[id] != RUNNING && v.st[id] == RUNNING;
    Tally(v.st, t.deferred + if v.effect == Deferred then 1 else 0, t.fail + if v.effect == Failed then 1 else 0,
          v.effect == Panicked, t.turns + [Turn(id, pass, t.st, call)],
          if up then t.boots + [Boot(id, t.st)] else t.boots, t.past + [t.st])
  }

  /** The first n entries of a pass; a panic ends everything. */
  function Pass(b: Board, t: Tally, pass: nat, calls: (nat, nat) -> Call, n: nat): (r: Tally)
    requires Fits(b, t.st) && n <= |b.order|
    ensures Fits(b, r.st)
  {
    if n == 0 then t.(deferred := 0)
    else
      var before := Pass(b, t, pass, calls, n - 1);
      if before.panicked then before else Count(b, before, pass, b.order[n - 1], calls(pass, n - 1))
  }

  predicate Stuck(b: Board, st: Table, id: int)
    requires Fits(b, st)
  {
    InRange(b, id) && st[id] != PROBED && st[id] != RUNNING && Pending(b, st, id)
  }

  function StallOne(b: Board, t: Tally, id: int): (r: Tally)
    requires Fits(b, t.st)
    ensures Fits(b, r.st)
  {
    var t1 := t.(turns := t.turns + [Turn(id, STALL, t.st, Call(Ok, false, false))]);
    if Stuck(b, t.st, id) then t1.(st := SetStatus(t.st, id, DISABLED), fail := t.fail + 1, past := t.past + [t.st])
    else t1
  }

  /** When a pass deferred as many devices as the one before: disable what is still pending. */
  function Stall(b: Board, t: Tally, n: nat): (r: Tally)
    requires Fits(b, t.st) && n <= |b.order|
    ensures Fits(b, r.st)
  {
    if n == 0 then t else StallOne(b, Stall(b, t, n - 1), b.order[n - 1])
  }

  /** board_driver_probe_all from a given pass on. */
  function Passes(b: Board, t: Tally, pass: nat, prev: nat, calls: (nat, nat) -> Call): (r: Tally)
    requires Fits(b, t.st) && pass <= 3
    ensures Fits(b, r.st)
    decreases 3 - pass
  {
    if pass == 3 then t
    else
      var after := Pass(b, t, pass, calls, |b.order|);
      if after.panicked || after.deferred == 0 then after
      else if after.deferred == prev then Stall(b, after, |b.order|)
      else Passes(b, after, pass + 1, after.deferred, calls)
  }

  function ProbeAllOn(b: Board, st: Table, calls: (nat, nat) -> Call): (r: Tally)
    requires Fits(b, st)
    ensures Fits(b, r.st)
  {
    Passes(b, Begin(st), 0, 0, calls)
  }

  // ---- What any probe keeps ----

  /** A change of the table that keeps ERROR and makes no device RUNNING. */
  ghost predicate Quiet(st: Table, st': Table) {
    && |st'| == |st|
    && (forall i :: 0 <= i < |st| ==> (st[i] == ERROR ==> st'[i] == ERROR))
    && (forall i :: 0 <= i < |st| ==> (st'[i] == RUNNING ==> st[i] == RUNNING))
  }

  lemma SetQuiet(st: Table, i: nat, to: Status)
    requires i < |st| && to != RUNNING && to != REMOVED
    ensures Quiet(st, SetStatus(st, i, to))
  {
  }

  lemma QuietTwice(a: Table, m: Table, z: Table)
    requires Quiet(a, m) && Quiet(m, z)
    ensures Quiet(a, z)
  {
  }

  lemma {:induction false} CascadeQuiet(b: Board, st: Table, list: seq<int>, n: nat)
    requires Fits(b, st) && n <= |list|
    ensures Quiet(st, Cascade(b, st, list, n))
  {
    hide SetStatus;
    hide Quiet;
    SelfQuiet(st);
    if n > 0 {
      var before, child := Cascade(b, st, list, n - 1), list[n - 1];
      CascadeQuiet(b, st, list, n - 1);
      if InRange(b, child) {
        SetQuiet(before, child, DISABLED);
        QuietTwice(st, before, SetStatus(before, child, DISABLED));
      }
    }
  }

  /** Which statuses disabling a dependent can end. */
  predicate Idle(s: Status) {
    s == READY || s == UNINIT
  }

  /** Exactly the listed devices that are READY or UNINIT end DISABLED; nothing else changes. */
  lemma {:induction false} CascadeIs(b: Board, st: Table, list: seq<int>, n: nat, i: nat)
    requires Fits(b, st) && n <= |list| && i < |st|
    ensures Cascade(b, st, list, n)[i] == if i in list[..n] && Idle(st[i]) then DISABLED else st[i]
  {
    if n > 0 {
      CascadeIs(b, st, list, n - 1, i);
      assert list[..n] == list[..n - 1] + [list[n - 1]];
    }
  }

  /** So all dependents of a failed device are disabled if and only if none of them is up, in ERROR or
      REMOVED. */
  lemma AllDisabledIff(b: Board, st: Table, list: seq<int>)
    requires Fits(b, st)
    ensures var st' := Cascade(b, st, list, |list|);
            (forall i :: 0 <= i < |st| && i in list ==> st'[i] == DISABLED) <==>
            (forall i :: 0 <= i < |st| && i in list ==> Idle(st[i]) || st[i] == DISABLED)
  {
    hide Cascade;
    assert list[..|list|] == list;
    forall i | 0 <= i < |st|
      ensures Cascade(b, st, list, |list|)[i] == if i in list && Idle(st[i]) then DISABLED else st[i]
    {
      CascadeIs(b, st, list, |list|, i);
    }
  }

  lemma SelfQuiet(st: Table)
    ensures Quiet(st, st)
  {
  }

  lemma FailureQuiet(b: Board, st: Table, i: nat, to: Status)
    requires Fits(b, st) && i < |st| && (to == ERROR || to == DISABLED)
    ensures Quiet(st, Failure(b, SetStatus(st, i, to), i).st)
  {
    hide Quiet;
    hide SetStatus;
    hide Cascade;
    var off := SetStatus(st, i, to);
    SetQuiet(st, i, to);
    CascadeQuiet(b, off, b.devs[i].dependents, |b.devs[i].dependents|);
    QuietTwice(st, off, Cascade(b, off, b.devs[i].dependents, |b.devs[i].dependents|));
  }

  /** A visit either changes the table quietly, or brings this one device from READY to RUNNING after
      a successful probe and open, with no broken dependency. */
  ghost predicate Boots(b: Board, st: Table, id: int, call: Call, st': Table)
    requires Fits(b, st)
  {
    && InRange(b, id) && st[id] == READY && !NotReady(b, st, id) && b.devs[id].probes && !b.devs[id].direct
    && call == Call(Ok, true, true) && st' == st[id := RUNNING]
  }

  lemma ProbeQuietOrBoots(b: Board, st: Table, i: nat, call: Call)
    requires Fits(b, st) && i < |st| && st[i] != RUNNING && st[i] != PROBED
    ensures var st' := AfterProbe(b, st, i, call).st;
            Quiet(st, st') || (st[i] == READY && call == Call(Ok, true, true) && st' == st[i := RUNNING])
  {
    hide Failure;
    FailureQuiet(b, st, i, ERROR);
    if call.ret == Ok {
      var probed := SetStatus(st, i, PROBED);
      if st[i] == READY {
        FailureQuiet(b, probed, i, ERROR);
        assert Quiet(st, probed);
        if !call.openOk { QuietTwice(st, probed, Failure(b, SetStatus(probed, i, ERROR), i).st); }
      }
    }
  }

  lemma VisitQuietOrBoots(b: Board, st: Table, id: int, call: Call)
    requires Fits(b, st)
    ensures var st' := Visit(b, st, id, call).st; Quiet(st, st') || Boots(b, st, id, call, st')
  {
    hide AfterProbe;
    hide Failure;
    hide Quiet;
    hide NotReady;
    hide Pending;
    SelfQuiet(st);
    if !Passed(b, st, id) {
      SetQuiet(st, id, DISABLED);
      FailureQuiet(b, st, id, DISABLED);
      ProbeQuietOrBoots(b, st, id, call);
    }
  }

  // ---- Whole probes ----

  ghost predicate ProperBoot(b: Board, boot: Boot) {
    && Fits(b, boot.at) && InRange(b, boot.id) && boot.at[boot.id] == READY && !NotReady(b, boot.at, boot.id)
    && b.devs[boot.id].probes && !b.devs[boot.id].direct
  }

  /** A device in ERROR in one table of a history is in ERROR in every later one. */
  ghost predicate ErrorsStay(tables: seq<Table>, n: nat) {
    && (forall j :: 0 <= j < |tables| ==> |tables[j]| == n)
    && (forall j, k, i :: 0 <= j <= k < |tables| && 0 <= i < n && tables[j][i] == ERROR ==> tables[k][i] == ERROR)
  }

  lemma ErrorsStayAppend(tables: seq<Table>, n: nat, st: Table)
    requires ErrorsStay(tables, n) && |tables| > 0 && Quiet(tables[|tables| - 1], st)
    ensures ErrorsStay(tables + [st], n)
  {
    var last := tables[|tables| - 1];
    forall j, k, i | 0 <= j <= k < |tables| + 1 && 0 <= i < n && (tables + [st])[j][i] == ERROR
      ensures (tables + [st])[k][i] == ERROR
    {
      if k == |tables| && j < k { assert last[i] == ERROR; }
    }
  }

  /** Everything that is RUNNING but was not at the start has a proper boot on record, and over the whole
      history a device that reached ERROR stayed there. */
  ghost predicate Explained(b: Board, start: Table, t: Tally) {
    && Fits(b, start) && Fits(b, t.st)
    && (forall k :: 0 <= k < |t.boots| ==> ProperBoot(b, t.boots[k]))
    && (forall i :: 0 <= i < |start| && t.st[i] == RUNNING && start[i] != RUNNING ==>
          exists k :: 0 <= k < |t.boots| && t.boots[k].id == i)
    && (t.past + [t.st])[0] == start && ErrorsStay(t.past + [t.st], |start|)
  }

  lemma QuietExplained(b: Board, start: Table, t: Tally, t': Tally)
    requires Explained(b, start, t) && Quiet(t.st, t'.st) && t'.boots == t.boots && t'.past == t.past + [t.st]
    ensures Explained(b, start, t')
  {
    hide ProperBoot;
    hide ErrorsStay;
    ErrorsStayAppend(t.past + [t.st], |start|, t'.st);
  }

  lemma SameExplained(b: Board, start: Table, t: Tally, t': Tally)
    requires Explained(b, start, t) && t'.st == t.st && t'.boots == t.boots && t'.past == t.past
    ensures Explained(b, start, t')
  {
  }

  lemma CountExplained(b: Board, start: Table, t: Tally, pass: nat, id: int, call: Call)
    requires Explained(b, start, t)
    ensures Explained(b, start, Count(b, t, pass, id, call))
  {
    hide Visit;
    hide NotReady;
    hide ErrorsStay;
    var t' := Count(b, t, pass, id, call);
    VisitQuietOrBoots(b, t.st, id, call);
    if Quiet(t.st, t'.st) {
      QuietExplained(b, start, t, t');
    } else {
      BootExplained(b, start, t, id, t');
    }
  }

  lemma BootExplained(b: Board, start: Table, t: Tally, id: int, t': Tally)
    requires Explained(b, start, t) && ProperBoot(b, Boot(id, t.st))
    requires t'.st == t.st[id := RUNNING] && t'.boots == t.boots + [Boot(id, t.st)] && t'.past == t.past + [t.st]
    ensures Explained(b, start, t')
  {
    hide NotReady;
    hide ErrorsStay;
    BootKeepsErrors(t.past + [t.st], |start|, id);
    forall i | 0 <= i < |start| && t'.st[i] == RUNNING && start[i] != RUNNING
      ensures exists k :: 0 <= k < |t'.boots| && t'.boots[k].id == i
    {
      if i == id {
        assert t'.boots[|t.boots|].id == i;
      } else {
        var k :| 0 <= k < |t.boots| && t.boots[k].id == i;
        assert t'.boots[k].id == i;
      }
    }
  }

  lemma BootKeepsErrors(tables: seq<Table>, n: nat, id: int)
    requires ErrorsStay(tables, n) && |tables| > 0 && 0 <= id < n && tables[|tables| - 1][id] == READY
    ensures ErrorsStay(tables + [tables[|tables| - 1][id := RUNNING]], n)
  {
    var last := tables[|tables| - 1];
    var st := last[id := RUNNING];
    forall j, k, i | 0 <= j <= k < |tables| + 1 && 0 <= i < n && (tables + [st])[j][i] == ERROR
      ensures (tables + [st])[k][i] == ERROR
    {
      if k == |tables| && j < k { assert last[i] == ERROR; }
    }
  }

  lemma {:induction false} PassExplained(b: Board, start: Table, t: Tally, pass: nat, calls: (nat, nat) -> Call, n: nat)
    requires Explained(b, start, t) && n <= |b.order|
    ensures Explained(b, start, Pass(b, t, pass, calls, n))
  {
    hide Count;
    if n > 0 {
      PassExplained(b, start, t, pass, calls, n - 1);
      CountExplained(b, start, Pass(b, t, pass, calls, n - 1), pass, b.order[n - 1], calls(pass, n - 1));
    }
  }

  lemma {:induction false} StallExplained(b: Board, start: Table, t: Tally, n: nat)
    requires Explained(b, start, t) && Fits(b, t.st) && n <= |b.order|
    ensures Explained(b, start, Stall(b, t, n))
  {
    hide Explained;
    hide Pending;
    hide Quiet;
    if n > 0 {
      StallExplained(b, start, t, n - 1);
      var before, id := Stall(b, t, n - 1), b.order[n - 1];
      if Stuck(b, before.st, id) {
        SetQuiet(before.st, id, DISABLED);
        QuietExplained(b, start, before, Stall(b, t, n));
      } else {
        SameExplained(b, start, before, Stall(b, t, n));
      }
    }
  }

  lemma {:induction false} PassesExplained(b: Board, start: Table, t: Tally, pass: nat, prev: nat, calls: (nat, nat) -> Call)
    requires Explained(b, start, t) && Fits(b, t.st) && pass <= 3
    ensures Explained(b, start, Passes(b, t, pass, prev, calls))
    decreases 3 - pass
  {
    hide Explained;
    hide Pass;
    hide Stall;
    if pass < 3 {
      PassExplained(b, start, t, pass, calls, |b.order|);
      var after := Pass(b, t, pass, calls, |b.order|);
      StallExplained(b, start, after, |b.order|);
      PassesExplained(b, start, after, pass + 1, after.deferred, calls);
    }
  }

  /** For every table and all callback results: a device newly RUNNING was READY when its probe was
      called, with no dependency missing, in ERROR or REMOVED; and a device that is in ERROR at any
      point of the probe, before or between visits, is in ERROR from then on. */
  lemma RunningIsExplained(b: Board, st: Table, calls: (nat, nat) -> Call)
    requires Fits(b, st)
    ensures Explained(b, st, ProbeAllOn(b, st, calls))
  {
    hide ProperBoot;
    hide Passes;
    assert [] + [st] == [st];
    PassesExplained(b, st, Begin(st), 0, 0, calls);
  }

  // ---- A dependent that is up already ----

  /** Two devices, the second depending on the first and probed before it. */
  function LateFailure(): Board {
    Board([Device(false, [], true, true, false, [1]), Device(false, [0], true, true, false, [])], [1, 0])
  }

  /** The dependent boots, then the device it depends on fails: it stays RUNNING. */
  lemma DependentStaysUp(calls: (nat, nat) -> Call)
    requires calls(0, 0) == Call(Ok, true, true) && calls(0, 1).ret == Fail
    ensures ProbeAllOn(LateFailure(), [READY, READY], calls).st == [ERROR, RUNNING]
  {
    var b, st := LateFailure(), [READY, READY];
    VisitBoots(b, st, 1, calls(0, 0));
    assert st[1 := RUNNING] == [READY, RUNNING];
    FailsLate(calls(0, 1));
    hide Visit;
    var t := Begin(st);
    assert Pass(b, t, 0, calls, 0) == t;
    var t1 := Pass(b, t, 0, calls, 1);
    assert t1.st == [READY, RUNNING] && !t1.panicked && t1.deferred == 0;
    var t2 := Pass(b, t, 0, calls, 2);
    assert t2.st == [ERROR, RUNNING] && t2.deferred == 0;
  }

  lemma FailsLate(call: Call)
    requires call.ret == Fail
    ensures Visit(LateFailure(), [READY, RUNNING], 0, call) == Visited([ERROR, RUNNING], Failed)
  {
    var b, st := LateFailure(), [ERROR, RUNNING];
    assert !NotReady(b, [READY, RUNNING], 0);
    assert Cascade(b, st, [1], 0) == st;
    assert Cascade(b, st, [1], 1) == st;
  }

  // ---- What the count of failures says ----

  ghost predicate Distinct(s: seq<int>) {
    forall j, k :: 0 <= j < k < |s| ==> s[j] != s[k]
  }

  /** The turn adds to the count of failures. */
  predicate Counted(b: Board, t: Turn) {
    Fits(b, t.at) && if t.round < STALL then Visit(b, t.at, t.id, t.call).effect == Failed else Stuck(b, t.at, t.id)
  }

  /** The device was to be brought up: it takes part in probing and was not disabled. */
  predicate Enabled(b: Board, t: Turn) {
    Fits(b, t.at) && InRange(b, t.id) && t.at[t.id] != DISABLED && !b.devs[t.id].direct
  }

  /** The devices that failed: some turn met them enabled, and their probe failed or they were stuck. */
  function FailedDevices(b: Board, turns: seq<Turn>): set<int> {
    set k | 0 <= k < |turns| && Counted(b, turns[k]) && Enabled(b, turns[k]) :: turns[k].id
  }

  /** First cause: a device that was counted is met, and counted, again. */
  ghost predicate MetAgain(b: Board, turns: seq<Turn>) {
    exists j, k :: 0 <= j < k < |turns| && turns[j].id == turns[k].id && Counted(b, turns[j]) && Counted(b, turns[k])
  }

  /** Second cause: the loop after a stall meets a disabled or DIRECT device with an unfinished dependency. */
  ghost predicate StallMeetsDisabled(b: Board, turns: seq<Turn>) {
    exists k :: 0 <= k < |turns| && turns[k].round >= STALL && Counted(b, turns[k]) && !Enabled(b, turns[k])
  }

  function Total(b: Board, turns: seq<Turn>): nat {
    if turns == [] then 0 else Total(b, turns[..|turns| - 1]) + if Counted(b, turns[|turns| - 1]) then 1 else 0
  }

  lemma CountTotal(b: Board, t: Tally, pass: nat, id: int, call: Call)
    requires Fits(b, t.st) && pass < STALL && t.fail == Total(b, t.turns)
    ensures var r := Count(b, t, pass, id, call); r.fail == Total(b, r.turns)
  {
    hide Visit;
    hide Total;
    Appended(b, t.turns, Turn(id, pass, t.st, call));
  }

  lemma {:induction false} PassTotal(b: Board, t: Tally, pass: nat, calls: (nat, nat) -> Call, n: nat)
    requires Fits(b, t.st) && n <= |b.order| && pass < STALL && t.fail == Total(b, t.turns)
    ensures var r := Pass(b, t, pass, calls, n); r.fail == Total(b, r.turns)
  {
    hide Count;
    hide Total;
    if n > 0 {
      PassTotal(b, t, pass, calls, n - 1);
      CountTotal(b, Pass(b, t, pass, calls, n - 1), pass, b.order[n - 1], calls(pass, n - 1));
    }
  }

  lemma Appended(b: Board, turns: seq<Turn>, t: Turn)
    ensures Total(b, turns + [t]) == Total(b, turns) + if Counted(b, t) then 1 else 0
  {
    hide Counted;
    assert (turns + [t])[..|turns|] == turns;
  }

  lemma {:induction false} StallTotal(b: Board, t: Tally, n: nat)
    requires Fits(b, t.st) && n <= |b.order| && t.fail == Total(b, t.turns)
    ensures var r := Stall(b, t, n); r.fail == Total(b, r.turns)
  {
    hide Stuck;
    hide SetStatus;
    if n > 0 {
      StallTotal(b, t, n - 1);
      var before := Stall(b, t, n - 1);
      Appended(b, before.turns, Turn(b.order[n - 1], STALL, before.st, Call(Ok, false, false)));
    }
  }

  lemma {:induction false} PassesTotal(b: Board, t: Tally, pass: nat, prev: nat, calls: (nat, nat) -> Call)
    requires Fits(b, t.st) && pass <= 3 && t.fail == Total(b, t.turns)
    ensures var r := Passes(b, t, pass, prev, calls); r.fail == Total(b, r.turns)
    decreases 3 - pass
  {
    hide Pass;
    hide Stall;
    hide Total;
    if pass < 3 {
      PassTotal(b, t, pass, calls, |b.order|);
      var after := Pass(b, t, pass, calls, |b.order|);
      StallTotal(b, after, |b.order|);
      PassesTotal(b, after, pass + 1, after.deferred, calls);
    }
  }

  /** A visit fails only devices that are enabled. */
  lemma VisitsMeetEnabled(b: Board, t: Turn)
    requires t.round < STALL && Counted(b, t)
    ensures Enabled(b, t)
  {
  }

  lemma FailedGrow(b: Board, turns: seq<Turn>, t: Turn)
    ensures FailedDevices(b, turns + [t]) ==
            if Counted(b, t) && Enabled(b, t) then FailedDevices(b, turns) + {t.id} else FailedDevices(b, turns)
  {
    hide Counted;
    hide Enabled;
    var all := turns + [t];
    assert all[|turns|] == t;
    forall i | i in FailedDevices(b, turns) ensures i in FailedDevices(b, all) {
      var k :| 0 <= k < |turns| && Counted(b, turns[k]) && Enabled(b, turns[k]) && turns[k].id == i;
      assert all[k] == turns[k];
    }
    forall i | i in FailedDevices(b, all)
      ensures i in FailedDevices(b, turns) || (i == t.id && Counted(b, t) && Enabled(b, t))
    {
      var k :| 0 <= k < |all| && Counted(b, all[k]) && Enabled(b, all[k]) && all[k].id == i;
      if k < |turns| { assert all[k] == turns[k]; }
    }
  }

  /** For any turns: as many counts as failed devices, unless one of the two causes adds more. */
  lemma {:induction false} TotalIsFailedIff(b: Board, turns: seq<Turn>)
    ensures |FailedDevices(b, turns)| <= Total(b, turns)
    ensures Total(b, turns) == |FailedDevices(b, turns)| <==> !MetAgain(b, turns) && !StallMeetsDisabled(b, turns)
  {
    hide Counted;
    hide Enabled;
    if turns != [] {
      var front, last := turns[..|turns| - 1], turns[|turns| - 1];
      TotalIsFailedIff(b, front);
      assert turns == front + [last];
      FailedGrow(b, front, last);
      CausesGrow(b, front, last);
      if Counted(b, last) && last.round < STALL { VisitsMeetEnabled(b, last); }
    }
  }

  /** Either cause can only be added by a turn that counts. */
  lemma CausesGrow(b: Board, turns: seq<Turn>, t: Turn)
    ensures MetAgain(b, turns + [t]) <==>
            MetAgain(b, turns) || (Counted(b, t) && exists j :: 0 <= j < |turns| && turns[j].id == t.id && Counted(b, turns[j]))
    ensures StallMeetsDisabled(b, turns + [t]) <==>
            StallMeetsDisabled(b, turns) || (t.round >= STALL && Counted(b, t) && !Enabled(b, t))
    ensures !StallMeetsDisabled(b, turns) ==>
            ((exists j :: 0 <= j < |turns| && turns[j].id == t.id && Counted(b, turns[j])) <==> t.id in FailedDevices(b, turns))
  {
    hide Counted;
    hide Enabled;
    var all := turns + [t];
    assert all[|turns|] == t && forall k :: 0 <= k < |turns| ==> all[k] == turns[k];
    if MetAgain(b, turns) {
      var j, k :| 0 <= j < k < |turns| && turns[j].id == turns[k].id && Counted(b, turns[j]) && Counted(b, turns[k]);
      assert all[j] == turns[j] && all[k] == turns[k];
    }
    if StallMeetsDisabled(b, turns) {
      var k :| 0 <= k < |turns| && turns[k].round >= STALL && Counted(b, turns[k]) && !Enabled(b, turns[k]);
      assert all[k] == turns[k];
    }
    if !StallMeetsDisabled(b, turns) {
      forall j | 0 <= j < |turns| && turns[j].id == t.id && Counted(b, turns[j]) ensures t.id in FailedDevices(b, turns) {
        if turns[j].round < STALL { VisitsMeetEnabled(b, turns[j]); }
        assert Enabled(b, turns[j]);
      }
    }
  }

  /** The count is the number of failed devices if and only if no device is counted twice and no stall counts
      a disabled or DIRECT one; otherwise it is larger. */
  lemma CountIsFailedIff(b: Board, st: Table, calls: (nat, nat) -> Call)
    requires Fits(b, st)
    ensures var t := ProbeAllOn(b, st, calls);
            && |FailedDevices(b, t.turns)| <= t.fail
            && (t.fail == |FailedDevices(b, t.turns)| <==> !MetAgain(b, t.turns) && !StallMeetsDisabled(b, t.turns))
  {
    hide Passes;
    PassesTotal(b, Begin(st), 0, 0, calls);
    TotalIsFailedIff(b, ProbeAllOn(b, st, calls).turns);
  }

  // ---- The first cause needs a later pass or a stall ----

  /** The turns up to entry n of round p of an order that names no device twice. */
  ghost predicate Staged(b: Board, turns: seq<Turn>, p: nat, n: nat) {
    && n <= |b.order|
    && (forall k :: 0 <= k < |turns| ==> turns[k].round <= p && (turns[k].round == p ==> turns[k].id in b.order[..n]))
    && (forall j, k :: 0 <= j < k < |turns| && turns[j].id == turns[k].id ==> turns[j].round < turns[k].round)
  }

  lemma StagedAppend(b: Board, turns: seq<Turn>, p: nat, n: nat, t: Turn)
    requires Distinct(b.order) && Staged(b, turns, p, n) && n < |b.order| && t.id == b.order[n] && t.round == p
    ensures Staged(b, turns + [t], p, n + 1)
  {
    assert b.order[..n + 1] == b.order[..n] + [b.order[n]];
    assert b.order[n] !in b.order[..n];
    forall j | 0 <= j < |turns| && turns[j].id == t.id ensures turns[j].round < p {
      assert turns[j].id !in b.order[..n];
    }
  }

  lemma {:induction false} PassStaged(b: Board, t: Tally, pass: nat, calls: (nat, nat) -> Call, n: nat)
    requires Fits(b, t.st) && n <= |b.order| && Distinct(b.order) && Staged(b, t.turns, pass, 0)
    ensures Staged(b, Pass(b, t, pass, calls, n).turns, pass, n)
  {
    hide Visit;
    hide Staged;
    if n > 0 {
      PassStaged(b, t, pass, calls, n - 1);
      var before := Pass(b, t, pass, calls, n - 1);
      StagedMore(b, before.turns, pass, n - 1, n);
      if !before.panicked {
        StagedAppend(b, before.turns, pass, n - 1, Turn(b.order[n - 1], pass, before.st, calls(pass, n - 1)));
      }
    }
  }

  lemma StagedMore(b: Board, turns: seq<Turn>, p: nat, n: nat, m: nat)
    requires Staged(b, turns, p, n) && n <= m <= |b.order|
    ensures Staged(b, turns, p, m) && Staged(b, turns, p + 1, 0) && (p < STALL ==> Staged(b, turns, STALL, 0))
  {
    assert b.order[..n] <= b.order[..m];
  }

  lemma {:induction false} StallStaged(b: Board, t: Tally, n: nat)
    requires Fits(b, t.st) && n <= |b.order| && Distinct(b.order) && Staged(b, t.turns, STALL, 0)
    ensures Staged(b, Stall(b, t, n).turns, STALL, n)
  {
    hide Stuck;
    hide SetStatus;
    hide Staged;
    if n > 0 {
      StallStaged(b, t, n - 1);
      var before := Stall(b, t, n - 1);
      StagedAppend(b, before.turns, STALL, n - 1, Turn(b.order[n - 1], STALL, before.st, Call(Ok, false, false)));
    }
  }

  lemma {:induction false} PassesStaged(b: Board, t: Tally, pass: nat, prev: nat, calls: (nat, nat) -> Call)
    requires Fits(b, t.st) && pass <= 3 && Distinct(b.order) && Staged(b, t.turns, pass, 0)
    ensures Staged(b, Passes(b, t, pass, prev, calls).turns, STALL, |b.order|)
    decreases 3 - pass
  {
    hide Pass;
    hide Stall;
    hide Staged;
    if pass == 3 {
      StagedMore(b, t.turns, 3, 0, |b.order|);
    } else {
      PassStaged(b, t, pass, calls, |b.order|);
      var after := Pass(b, t, pass, calls, |b.order|);
      StagedMore(b, after.turns, pass, |b.order|, |b.order|);
      StagedMore(b, after.turns, STALL, 0, |b.order|);
      StallStaged(b, after, |b.order|);
      PassesStaged(b, after, pass + 1, after.deferred, calls);
    }
  }

  /** If the order names no device twice, one is met again only in a later pass or by the stall. */
  lemma AgainIsLater(b: Board, st: Table, calls: (nat, nat) -> Call, j: nat, k: nat)
    requires Fits(b, st) && Distinct(b.order)
    requires var turns := ProbeAllOn(b, st, calls).turns; j < k < |turns| && turns[j].id == turns[k].id
    ensures var turns := ProbeAllOn(b, st, calls).turns; turns[j].round < turns[k].round <= STALL
  {
    hide Passes;
    PassesStaged(b, Begin(st), 0, 0, calls);
  }

  /** A probe that defers nothing in its first pass counts each failed device once. */
  lemma OnePassCountsFailed(b: Board, st: Table, calls: (nat, nat) -> Call)
    requires Fits(b, st) && Distinct(b.order) && Pass(b, Begin(st), 0, calls, |b.order|).deferred == 0
    ensures var t := ProbeAllOn(b, st, calls); t.fail == |FailedDevices(b, t.turns)|
  {
    hide Pass;
    hide Counted;
    hide Enabled;
    PassStaged(b, Begin(st), 0, calls, |b.order|);
    CountIsFailedIff(b, st, calls);
  }

  // ---- On a fresh boot the table alone decides ----

  /** The statuses a device tree starts with, or the probe gives: none suspended or removed. */
  ghost predicate Legal(st: Table) {
    forall i :: 0 <= i < |st| ==> st[i] != SUSPENDED && st[i] != REMOVED
  }

  /** What a turn may do to the table. */
  ghost predicate Moves(st: Table, st': Table, id: int, counted: bool) {
    && |st'| == |st| && Legal(st')
    && (forall i :: 0 <= i < |st| && !Idle(st[i]) ==> !Idle(st'[i]))
    && (forall i :: 0 <= i < |st| && st'[i] == ERROR && st[i] != ERROR ==> i == id && counted)
    && (counted && 0 <= id < |st| ==> !Idle(st'[id]))
  }

  lemma CascadeMoves(b: Board, st: Table, list: seq<int>, id: int)
    requires Fits(b, st) && Legal(st)
    ensures Moves(st, Cascade(b, st, list, |list|), id, false)
  {
    hide Cascade;
    forall i | 0 <= i < |st|
      ensures var s' := Cascade(b, st, list, |list|)[i];
              s' != SUSPENDED && s' != REMOVED && (!Idle(st[i]) ==> !Idle(s')) && (s' == ERROR ==> st[i] == ERROR)
    {
      CascadeIs(b, st, list, |list|, i);
    }
  }

  /** Marking a device as failed, and the cascade. */
  lemma FailureMoves(b: Board, st: Table, i: nat, to: Status)
    requires Fits(b, st) && Legal(st) && i < |st| && (to == ERROR || to == DISABLED) && (to == DISABLED ==> st[i] != PROBED && st[i] != RUNNING)
    ensures Moves(st, Failure(b, SetStatus(st, i, to), i).st, i, true)
  {
    hide Cascade;
    var off := SetStatus(st, i, to);
    CascadeMoves(b, off, b.devs[i].dependents, i);
  }

  lemma VisitMoves(b: Board, st: Table, id: int, call: Call)
    requires Fits(b, st) && Legal(st)
    ensures var v := Visit(b, st, id, call); Moves(st, v.st, id, v.effect == Failed || v.effect == Panicked)
  {
    hide Failure;
    hide NotReady;
    hide Pending;
    if !Passed(b, st, id) {
      FailureMoves(b, st, id, DISABLED);
      FailureMoves(b, st, id, ERROR);
      if b.devs[id].probes && !NotReady(b, st, id) {
        ProbeMoves(b, st, id, call);
      } else {
        FailureEffect(b, SetStatus(st, id, DISABLED), id);
      }
    }
  }

  lemma FailureEffect(b: Board, st: Table, i: nat)
    requires Fits(b, st) && i < |st|
    ensures var e := Failure(b, st, i).effect; e == Failed || e == Panicked
  {
  }

  lemma ProbeMoves(b: Board, st: Table, i: nat, call: Call)
    requires Fits(b, st) && Legal(st) && i < |st| && st[i] != DISABLED && st[i] != PROBED && st[i] != RUNNING
    ensures var v := AfterProbe(b, st, i, call); Moves(st, v.st, i, v.effect == Failed || v.effect == Panicked)
  {
    hide Failure;
    var probed := SetStatus(st, i, PROBED);
    FailureMoves(b, st, i, ERROR);
    FailureMoves(b, probed, i, ERROR);
    FailureEffect(b, SetStatus(st, i, ERROR), i);
    FailureEffect(b, SetStatus(probed, i, ERROR), i);
  }

  /** Every device in ERROR was counted, and every device counted is past being tried. */
  ghost predicate Tracked(b: Board, t: Tally) {
    && Fits(b, t.st) && Legal(t.st)
    && (forall k :: 0 <= k < |t.turns| ==> Fits(b, t.turns[k].at) && Legal(t.turns[k].at))
    && (forall k :: 0 <= k < |t.turns| && Counted(b, t.turns[k]) && InRange(b, t.turns[k].id) ==> !Idle(t.st[t.turns[k].id]))
    && (t.panicked || forall i :: 0 <= i < |t.st| && t.st[i] == ERROR ==> CountedIn(b, t.turns, |t.turns|, i))
    && (forall k :: 0 <= k < |t.turns| ==> TurnTracked(b, t.turns, k))
  }

  ghost predicate CountedIn(b: Board, turns: seq<Turn>, n: nat, i: int)
    requires n <= |turns|
  {
    exists j :: 0 <= j < n && turns[j].id == i && Counted(b, turns[j])
  }

  /** A turn finds a device it counted before neither READY nor UNINIT, and one in ERROR only if it did. */
  ghost predicate TurnTracked(b: Board, turns: seq<Turn>, k: nat)
    requires k < |turns|
  {
    var t := turns[k];
    Fits(b, t.at) && (InRange(b, t.id) ==>
      (CountedIn(b, turns, k, t.id) ==> !Idle(t.at[t.id])) && (t.at[t.id] == ERROR ==> CountedIn(b, turns, k, t.id)))
  }

  lemma TurnKeepsTracked(b: Board, t: Tally, turn: Turn, t': Tally)
    requires Tracked(b, t) && !t.panicked && turn.at == t.st && t'.turns == t.turns + [turn]
    requires Moves(t.st, t'.st, turn.id, Counted(b, turn) || t'.panicked)
    ensures Tracked(b, t')
  {
    hide Counted;
    hide Idle;
    var n := |t.turns|;
    forall k | 0 <= k <= n ensures TurnTracked(b, t'.turns, k) {
      SameBefore(b, t.turns, turn, k);
      if k < n { assert TurnTracked(b, t.turns, k); }
    }
    forall i | 0 <= i < |t'.st| && t'.st[i] == ERROR && !t'.panicked ensures CountedIn(b, t'.turns, n + 1, i) {
      SameBefore(b, t.turns, turn, n);
      if t.st[i] != ERROR { assert t'.turns[n] == turn; }
    }
  }

  lemma SameBefore(b: Board, turns: seq<Turn>, t: Turn, k: nat)
    requires k <= |turns|
    ensures forall i :: CountedIn(b, turns + [t], k, i) <==> CountedIn(b, turns, k, i)
    ensures forall i :: CountedIn(b, turns, k, i) ==> CountedIn(b, turns + [t], |turns| + 1, i)
  {
    hide Counted;
    forall i ensures CountedIn(b, turns + [t], k, i) <==> CountedIn(b, turns, k, i)
             ensures CountedIn(b, turns, k, i) ==> CountedIn(b, turns + [t], |turns| + 1, i)
    {
      if CountedIn(b, turns, k, i) {
        var j :| 0 <= j < k && turns[j].id == i && Counted(b, turns[j]);
        assert (turns + [t])[j] == turns[j];
      }
      if CountedIn(b, turns + [t], k, i) {
        var j :| 0 <= j < k && (turns + [t])[j].id == i && Counted(b, (turns + [t])[j]);
        assert (turns + [t])[j] == turns[j];
      }
    }
  }

  lemma {:induction false} PassTracked(b: Board, t: Tally, pass: nat, calls: (nat, nat) -> Call, n: nat)
    requires Tracked(b, t) && n <= |b.order| && !t.panicked && pass < STALL
    ensures Tracked(b, Pass(b, t, pass, calls, n))
  {
    hide Visit;
    hide Tracked;
    hide Moves;
    TrackedFits(b, t);
    if n == 0 {
      SameTracked(b, t);
    } else {
      PassTracked(b, t, pass, calls, n - 1);
      var before, id, call := Pass(b, t, pass, calls, n - 1), b.order[n - 1], calls(pass, n - 1);
      if !before.panicked {
        TrackedFits(b, before);
        VisitMoves(b, before.st, id, call);
        TurnKeepsTracked(b, before, Turn(id, pass, before.st, call), Pass(b, t, pass, calls, n));
      }
    }
  }

  lemma TrackedFits(b: Board, t: Tally)
    requires Tracked(b, t)
    ensures Fits(b, t.st) && Legal(t.st)
  {
  }

  lemma SameTracked(b: Board, t: Tally)
    requires Tracked(b, t)
    ensures Tracked(b, t.(deferred := 0))
  {
  }

  lemma {:induction false} StallTracked(b: Board, t: Tally, n: nat)
    requires Tracked(b, t) && Fits(b, t.st) && n <= |b.order| && !t.panicked
    ensures Tracked(b, Stall(b, t, n)) && !Stall(b, t, n).panicked
  {
    hide Stuck;
    hide Tracked;
    hide Moves;
    if n > 0 {
      StallTracked(b, t, n - 1);
      var before, id := Stall(b, t, n - 1), b.order[n - 1];
      TrackedFits(b, before);
      StallMoves(b, before.st, id);
      TurnKeepsTracked(b, before, Turn(id, STALL, before.st, Call(Ok, false, false)), Stall(b, t, n));
    }
  }

  lemma StallMoves(b: Board, st: Table, id: int)
    requires Fits(b, st) && Legal(st)
    ensures Stuck(b, st, id) ==> Moves(st, SetStatus(st, id, DISABLED), id, true)
    ensures Moves(st, st, id, false)
  {
    hide Pending;
  }

  lemma {:induction false} PassesTracked(b: Board, t: Tally, pass: nat, prev: nat, calls: (nat, nat) -> Call)
    requires Tracked(b, t) && Fits(b, t.st) && pass <= 3 && !t.panicked
    ensures Tracked(b, Passes(b, t, pass, prev, calls))
    decreases 3 - pass
  {
    hide Pass;
    hide Stall;
    hide Tracked;
    if pass < 3 {
      PassTracked(b, t, pass, calls, |b.order|);
      var after := Pass(b, t, pass, calls, |b.order|);
      if !after.panicked {
        StallTracked(b, after, |b.order|);
        PassesTracked(b, after, pass + 1, after.deferred, calls);
      }
    }
  }

  /** The guard the two loops lack: a counted device is READY or UNINIT, and not DIRECT. */
  ghost predicate MeetsUntried(b: Board, t: Turn) {
    Fits(b, t.at) && InRange(b, t.id) && Idle(t.at[t.id]) && !b.devs[t.id].direct
  }

  /** On a board with no device in ERROR, suspended or removed at the start, the count is the number of failed
      devices if and only if every turn that counts meets a device that is READY or UNINIT and not DIRECT. */
  lemma FreshCountIff(b: Board, st: Table, calls: (nat, nat) -> Call)
    requires Fits(b, st) && Legal(st) && forall i :: 0 <= i < |st| ==> st[i] != ERROR
    ensures var t := ProbeAllOn(b, st, calls);
            t.fail == |FailedDevices(b, t.turns)| <==>
            forall k :: 0 <= k < |t.turns| && Counted(b, t.turns[k]) ==> MeetsUntried(b, t.turns[k])
  {
    hide Passes;
    PassesTracked(b, Begin(st), 0, 0, calls);
    CountIsFailedIff(b, st, calls);
    CausesAreGuards(b, ProbeAllOn(b, st, calls));
  }

  lemma CausesAreGuards(b: Board, t: Tally)
    requires Tracked(b, t)
    ensures !MetAgain(b, t.turns) && !StallMeetsDisabled(b, t.turns) <==>
            forall k :: 0 <= k < |t.turns| && Counted(b, t.turns[k]) ==> MeetsUntried(b, t.turns[k])
  {
    var turns := t.turns;
    forall k | 0 <= k < |turns| && Counted(b, turns[k]) && !MeetsUntried(b, turns[k])
      ensures MetAgain(b, turns) || StallMeetsDisabled(b, turns)
    {
      GuardFails(b, turns, k);
    }
    if forall k :: 0 <= k < |turns| && Counted(b, turns[k]) ==> MeetsUntried(b, turns[k]) {
      if MetAgain(b, turns) {
        var j, k :| 0 <= j < k < |turns| && turns[j].id == turns[k].id && Counted(b, turns[j]) && Counted(b, turns[k]);
        assert TurnTracked(b, turns, k) && CountedIn(b, turns, k, turns[k].id);
      }
    }
  }

  lemma GuardFails(b: Board, turns: seq<Turn>, k: nat)
    requires k < |turns| && Counted(b, turns[k]) && !MeetsUntried(b, turns[k]) && TurnTracked(b, turns, k) && Legal(turns[k].at)
    ensures MetAgain(b, turns) || StallMeetsDisabled(b, turns)
  {
    var t := turns[k];
    CountedInRange(b, t);
    if t.round < STALL { VisitsMeetEnabled(b, t); }
    if Enabled(b, t) {
      NotUp(b, t);
      assert t.at[t.id] == ERROR;
      var j :| 0 <= j < k && turns[j].id == t.id && Counted(b, turns[j]);
    }
  }

  lemma CountedInRange(b: Board, t: Turn)
    requires Counted(b, t)
    ensures InRange(b, t.id)
  {
  }

  lemma NotUp(b: Board, t: Turn)
    requires Counted(b, t) && InRange(b, t.id)
    ensures t.at[t.id] != PROBED && t.at[t.id] != RUNNING
  {
  }

  // ---- Both causes occur ----

  /** One device that fails and one that asks to be deferred, the latter until it has been asked twice. */
  function FailAndDefer(): Board {
    Board([Device(false, [], true, true, false, []), Device(false, [], true, true, false, [])], [0, 1])
  }

  /** The failing device is probed and counted in both passes. */
  lemma CountedTwice(calls: (nat, nat) -> Call)
    requires calls(0, 0).ret == Fail && calls(0, 1).ret == Defer
    requires calls(1, 0).ret == Fail && calls(1, 1) == Call(Ok, true, true)
    ensures var b := FailAndDefer();
            var t := ProbeAllOn(b, [READY, READY], calls); t.fail == 2 && FailedDevices(b, t.turns) == {0}
  {
    var b, st := FailAndDefer(), [READY, READY];
    var bad, good := [ERROR, READY], [ERROR, RUNNING];
    FailsAlone(b, st, 0, calls(0, 0));
    FailsAlone(b, bad, 0, calls(1, 0));
    DefersOrBoots(b, bad, 1, calls(0, 1));
    DefersOrBoots(b, bad, 1, calls(1, 1));
    assert bad[1 := RUNNING] == good && st[0 := ERROR] == bad && bad[0 := ERROR] == bad;
    hide Visit;
    hide Passes;
    var t := FirstPass(b, calls);
    SecondPass(b, t, calls);
    OnlyTheFirst(b, Passes(b, t, 1, 1, calls).turns, calls);
  }

  lemma FirstPass(b: Board, calls: (nat, nat) -> Call) returns (t: Tally)
    requires b == FailAndDefer()
    requires Visit(b, [READY, READY], 0, calls(0, 0)) == Visited([ERROR, READY], Failed)
    requires Visit(b, [ERROR, READY], 1, calls(0, 1)) == Visited([ERROR, READY], Deferred)
    ensures t.st == [ERROR, READY] && t.fail == 1 && t.deferred == 1 && !t.panicked
    ensures t.turns == [Turn(0, 0, [READY, READY], calls(0, 0)), Turn(1, 0, [ERROR, READY], calls(0, 1))]
    ensures ProbeAllOn(b, [READY, READY], calls) == Passes(b, t, 1, 1, calls)
  {
    hide Visit;
    var st, bad, t0 := [READY, READY], [ERROR, READY], Begin([READY, READY]);
    assert Pass(b, t0, 0, calls, 0) == t0;
    var t1 := Pass(b, t0, 0, calls, 1);
    assert t1.st == bad && t1.fail == 1 && t1.deferred == 0 && !t1.panicked && t1.turns == [Turn(0, 0, st, calls(0, 0))];
    t := Pass(b, t0, 0, calls, 2);
    assert t.turns == [Turn(0, 0, st, calls(0, 0)), Turn(1, 0, bad, calls(0, 1))];
  }

  lemma SecondPass(b: Board, t: Tally, calls: (nat, nat) -> Call)
    requires b == FailAndDefer() && t.st == [ERROR, READY] && t.fail == 1 && t.deferred == 1 && !t.panicked
    requires Visit(b, [ERROR, READY], 0, calls(1, 0)) == Visited([ERROR, READY], Failed)
    requires Visit(b, [ERROR, READY], 1, calls(1, 1)) == Visited([ERROR, RUNNING], Done)
    ensures var r := Passes(b, t, 1, 1, calls);
            && r.fail == 2
            && r.turns == t.turns + [Turn(0, 1, [ERROR, READY], calls(1, 0)), Turn(1, 1, [ERROR, READY], calls(1, 1))]
  {
    hide Visit;
    assert Pass(b, t, 1, calls, 0) == t.(deferred := 0);
    var t1 := Pass(b, t, 1, calls, 1);
    assert t1.st == [ERROR, READY] && t1.fail == 2 && t1.deferred == 0 && !t1.panicked;
    assert t1.turns == t.turns + [Turn(0, 1, [ERROR, READY], calls(1, 0))];
    var t2 := Pass(b, t, 1, calls, 2);
    assert t2.fail == 2 && t2.deferred == 0 && !t2.panicked;
    assert t2.turns == t.turns + [Turn(0, 1, [ERROR, READY], calls(1, 0)), Turn(1, 1, [ERROR, READY], calls(1, 1))];
  }

  lemma OnlyTheFirst(b: Board, turns: seq<Turn>, calls: (nat, nat) -> Call)
    requires b == FailAndDefer() && |turns| == 4
    requires turns[0] == Turn(0, 0, [READY, READY], calls(0, 0)) && turns[1] == Turn(1, 0, [ERROR, READY], calls(0, 1))
    requires turns[2].id == 0 && turns[3] == Turn(1, 1, [ERROR, READY], calls(1, 1))
    requires Visit(b, [READY, READY], 0, calls(0, 0)).effect == Failed
    requires Visit(b, [ERROR, READY], 1, calls(0, 1)).effect == Deferred && Visit(b, [ERROR, READY], 1, calls(1, 1)).effect == Done
    ensures FailedDevices(b, turns) == {0}
  {
    hide Visit;
    assert Counted(b, turns[0]) && Enabled(b, turns[0]) && !Counted(b, turns[1]) && !Counted(b, turns[3]);
  }

  /** Two devices with a dependency that does not exist. */
  function BothStuck(): Board {
    Board([Device(false, [5], true, true, false, []), Device(false, [5], true, true, false, [])], [0, 1])
  }

  /** The second is disabled from the start and never probed; the stall counts it all the same. */
  lemma DisabledIsCounted(calls: (nat, nat) -> Call)
    ensures var b := BothStuck();
            var t := ProbeAllOn(b, [READY, DISABLED], calls); t.fail == 2 && FailedDevices(b, t.turns) == {0}
  {
    var b, st := BothStuck(), [READY, DISABLED];
    StuckPass(b, Begin(st), 0, calls);
    var t1 := Pass(b, Begin(st), 0, calls, 2);
    StuckPass(b, t1, 1, calls);
    var t2 := Pass(b, t1, 1, calls, 2);
    assert t2.turns[..] == t2.turns;
    StuckStall(b, t2);
  }

  /** Neither device is ever ready: the first is deferred, the second skipped. */
  lemma StuckVisits(b: Board, call: Call)
    requires b == BothStuck()
    ensures Visit(b, [READY, DISABLED], 0, call) == Visited([READY, DISABLED], Deferred)
    ensures Visit(b, [READY, DISABLED], 1, call) == Visited([READY, DISABLED], Skipped)
  {
    var st := [READY, DISABLED];
    assert Broken(b, st, b.devs[0].deps[0]);
    NotReadyIsPending(b, st, 0);
  }

  lemma StuckPass(b: Board, t: Tally, pass: nat, calls: (nat, nat) -> Call)
    requires b == BothStuck() && t.st == [READY, DISABLED] && !t.panicked && pass < STALL
    ensures var r := Pass(b, t, pass, calls, 2);
            && r.st == t.st && r.fail == t.fail && r.deferred == 1 && !r.panicked
            && r.turns == t.turns + [Turn(0, pass, t.st, calls(pass, 0)), Turn(1, pass, t.st, calls(pass, 1))]
            && !Counted(b, Turn(0, pass, t.st, calls(pass, 0))) && !Counted(b, Turn(1, pass, t.st, calls(pass, 1)))
  {
    StuckVisits(b, calls(pass, 0));
    StuckVisits(b, calls(pass, 1));
    hide Visit;
    assert Pass(b, t, pass, calls, 0) == t.(deferred := 0);
    var t1 := Pass(b, t, pass, calls, 1);
    assert t1.st == t.st && t1.deferred == 1 && !t1.panicked && t1.turns == t.turns + [Turn(0, pass, t.st, calls(pass, 0))];
  }

  lemma StuckStall(b: Board, t: Tally)
    requires b == BothStuck() && t.st == [READY, DISABLED] && t.fail == 0
    requires forall k :: 0 <= k < |t.turns| ==> !Counted(b, t.turns[k])
    ensures var r := Stall(b, t, 2); r.fail == 2 && FailedDevices(b, r.turns) == {0}
  {
    var call, st, off := Call(Ok, false, false), [READY, DISABLED], [DISABLED, DISABLED];
    assert Stuck(b, st, 0) by { assert Unfinished(b, st, b.devs[0].deps[0]); }
    assert Stuck(b, off, 1) by { assert Unfinished(b, off, b.devs[1].deps[0]); }
    assert SetStatus(st, 0, DISABLED) == off;
    assert Stall(b, t, 0) == t;
    var t1 := Stall(b, t, 1);
    assert t1.st == off && t1.fail == 1 && t1.turns == t.turns + [Turn(0, STALL, st, call)];
    var t2 := Stall(b, t, 2);
    assert t2.fail == 2 && t2.turns == t1.turns + [Turn(1, STALL, off, call)];
    assert FailedDevices(b, t.turns) == {};
    FailedGrow(b, t.turns, Turn(0, STALL, st, call));
    FailedGrow(b, t1.turns, Turn(1, STALL, off, call));
  }

  /** A device without dependencies that asks to be deferred, or boots. */
  lemma DefersOrBoots(b: Board, st: Table, i: nat, call: Call)
    requires Fits(b, st) && i < |st| && st[i] == READY && (call.ret == Defer || call == Call(Ok, true, true))
    requires var d := b.devs[i]; d.deps == [] && d.probes && !d.direct
    ensures Visit(b, st, i, call) == if call.ret == Defer then Visited(st, Deferred) else Visited(st[i := RUNNING], Done)
  {
    hide Failure;
    assert !NotReady(b, st, i);
    assert st[i := PROBED][i := RUNNING] == st[i := RUNNING];
  }

  /** A device without dependencies and dependents whose probe fails. */
  lemma FailsAlone(b: Board, st: Table, i: nat, call: Call)
    requires Fits(b, st) && i < |st| && (st[i] == READY || st[i] == ERROR) && call.ret == Fail
    requires var d := b.devs[i]; d.deps == [] && d.dependents == [] && d.probes && !d.direct && !d.fatal
    ensures Visit(b, st, i, call) == Visited(st[i := ERROR], Failed)
  {
    assert !NotReady(b, st, i);
  }

  // ---- A board on which everything works ----

  ghost predicate Healthy(b: Board, st: Table) {
    && Fits(b, st)
    && (forall i :: 0 <= i < |st| ==> st[i] != ERROR && st[i] != REMOVED)
    && (forall i, k :: 0 <= i < |b.devs| && 0 <= k < |b.devs[i].deps| ==> InRange(b, b.devs[i].deps[k]))
  }

  lemma HealthyIsReady(b: Board, st: Table, i: nat)
    requires Healthy(b, st) && i < |st|
    ensures !NotReady(b, st, i)
  {
  }

  /** What the device at position k of the order should become. */
  function Goal(calls: (nat, nat) -> Call, k: nat): Status {
    if calls(0, k).opens then RUNNING else PROBED
  }

  ghost predicate Bootable(b: Board, st: Table, calls: (nat, nat) -> Call) {
    && Healthy(b, st)
    && (forall j, k :: 0 <= j < k < |b.order| ==> b.order[j] != b.order[k])
    && (forall k :: 0 <= k < |b.order| ==> InRange(b, b.order[k]))
    && (forall k :: 0 <= k < |b.order| ==> st[b.order[k]] == READY)
    && (forall k :: 0 <= k < |b.order| ==> b.devs[b.order[k]].probes && !b.devs[b.order[k]].direct)
    && (forall k :: 0 <= k < |b.order| ==> calls(0, k).ret == Ok && calls(0, k).openOk)
  }

  ghost predicate BootedTo(b: Board, st: Table, calls: (nat, nat) -> Call, n: nat, t: Tally)
    requires Bootable(b, st, calls) && n <= |b.order|
  {
    && Healthy(b, t.st) && t.deferred == 0 && t.fail == 0 && !t.panicked
    && (forall k :: 0 <= k < |b.order| ==> t.st[b.order[k]] == if k < n then Goal(calls, k) else READY)
  }

  lemma VisitBoots(b: Board, st: Table, i: nat, call: Call)
    requires Healthy(b, st) && i < |st| && st[i] == READY && b.devs[i].probes && !b.devs[i].direct
    requires call.ret == Ok && call.openOk
    ensures Visit(b, st, i, call) == Visited(st[i := if call.opens then RUNNING else PROBED], Done)
  {
    HealthyIsReady(b, st, i);
    hide NotReady;
    hide Pending;
    hide Failure;
  }

  lemma CountBoots(b: Board, st: Table, calls: (nat, nat) -> Call, n: nat, t: Tally)
    requires Bootable(b, st, calls) && n < |b.order| && BootedTo(b, st, calls, n, t)
    ensures BootedTo(b, st, calls, n + 1, Count(b, t, 0, b.order[n], calls(0, n)))
  {
    hide Visit;
    VisitBoots(b, t.st, b.order[n], calls(0, n));
  }

  lemma {:induction false} PassBoots(b: Board, st: Table, calls: (nat, nat) -> Call, n: nat)
    requires Bootable(b, st, calls) && n <= |b.order|
    ensures BootedTo(b, st, calls, n, Pass(b, Begin(st), 0, calls, n))
  {
    hide Count;
    if n > 0 {
      PassBoots(b, st, calls, n - 1);
      CountBoots(b, st, calls, n - 1, Pass(b, Begin(st), 0, calls, n - 1));
    }
  }

  /** With every ordered device READY, its dependencies present and no callback failing, one pass brings
      all of them up and reports no failure, whatever the order of dependencies. */
  lemma EverythingBoots(b: Board, st: Table, calls: (nat, nat) -> Call)
    requires Bootable(b, st, calls)
    ensures BootedTo(b, st, calls, |b.order|, ProbeAllOn(b, st, calls))
  {
    hide Pass;
    hide BootedTo;
    var t := Pass(b, Begin(st), 0, calls, |b.order|);
    PassBoots(b, st, calls, |b.order|);
    assert !t.panicked && t.deferred == 0 by { BootedCounts(b, st, calls, t); }
  }

  lemma BootedCounts(b: Board, st: Table, calls: (nat, nat) -> Call, t: Tally)
    requires Bootable(b, st, calls) && BootedTo(b, st, calls, |b.order|, t)
    ensures !t.panicked && t.deferred == 0
  {
  }

  // ---- The status table updated in place ----

  class Driver {
    const b: Board
    const status: array<Status>
    ghost var boots: seq<Boot>
    ghost var past: seq<Table>

    ghost predicate Valid()
      reads this
    {
      status.Length == |b.devs|
    }

    constructor (board: Board, st: array<Status>)
      requires st.Length == |board.devs|
      ensures Valid() && b == board && status == st && boots == [] && past == []
    {
      b, status, boots, past := board, st, [], [];
    }

    method DependencyNotReady(i: nat) returns (r: bool)
      requires Valid() && i < status.Length
      ensures r == NotReady(b, status[..], i)
    {
      var deps := b.devs[i].deps;
      for k := 0 to |deps|
        invariant forall j :: 0 <= j < k ==> !Broken(b, status[..], deps[j])
      {
        var dep := deps[k];
        if dep < 0 || dep >= |b.devs| {
          assert Broken(b, status[..], deps[k]);
          return true;
        }
        if b.devs[dep].direct {
          continue;
        }
        if status[dep] == ERROR || status[dep] == REMOVED {
          assert Broken(b, status[..], deps[k]);
          return true;
        }
      }
      return false;
    }

    method DependencyPending(i: nat) returns (r: bool)
      requires Valid() && i < status.Length
      ensures r == Pending(b, status[..], i)
    {
      var deps := b.devs[i].deps;
      for k := 0 to |deps|
        invariant forall j :: 0 <= j < k ==> !Unfinished(b, status[..], deps[j])
      {
        var dep := deps[k];
        if dep < 0 || dep >= |b.devs| {
          assert Unfinished(b, status[..], deps[k]);
          return true;
        }
        if b.devs[dep].direct {
          continue;
        }
        if status[dep] != PROBED && status[dep] != RUNNING && status[dep] != SUSPENDED {
          assert Unfinished(b, status[..], deps[k]);
          return true;
        }
      }
      return false;
    }

    method SetDeviceStatus(i: nat, to: Status)
      requires Valid() && i < status.Length
      modifies status
      ensures status[..] == SetStatus(old(status[..]), i, to)
    {
      if CanTransit(status[i], to) {
        status[i] := to;
      }
    }

    /** handle_probe_failure, which panics for a fatal device, and disable_dependents: of the listed devices
        those that are READY or UNINIT end DISABLED, and nothing else changes. */
    method FailDevice(i: nat) returns (effect: Effect)
      requires Valid() && i < status.Length
      modifies status
      ensures Visited(status[..], effect) == Failure(b, old(status[..]), i)
      ensures Quiet(old(status[..]), status[..])
      ensures forall j :: 0 <= j < status.Length ==>
                status[j] == if effect == Failed && j in b.devs[i].dependents && Idle(old(status[j])) then DISABLED else old(status[j])
    {
      hide SetStatus;
      hide Quiet;
      hide Idle;
      var list := b.devs[i].dependents;
      ghost var was := status[..];
      SelfQuiet(was);
      if b.devs[i].fatal {
        return Panicked;
      }
      for k := 0 to |list|
        invariant status[..] == Cascade(b, was, list, k)
      {
        var child := list[k];
        if child < 0 || child >= |b.devs| {
          continue;
        }
        if status[child] == DISABLED || status[child] == REMOVED {
          continue;
        }
        SetDeviceStatus(child, DISABLED);
      }
      CascadeQuiet(b, was, list, |list|);
      assert list[..|list|] == list;
      forall j | 0 <= j < |was|
        ensures status[j] == if j in list && Idle(was[j]) then DISABLED else was[j]
      {
        CascadeIs(b, was, list, |list|, j);
      }
      return Failed;
    }

    /** The probe callback's answer and device_open. */
    method ProbeDevice(i: nat, call: Call) returns (effect: Effect)
      requires Valid() && i < status.Length
      modifies status
      ensures Visited(status[..], effect) == AfterProbe(b, old(status[..]), i, call)
    {
      hide Failure;
      hide Quiet;
      hide CanTransit;
      if call.ret == Defer {
        return Deferred;
      }
      var fine := call.ret == Ok;
      if fine {
        SetDeviceStatus(i, PROBED);
        if call.opens && status[i] != RUNNING {
          fine := status[i] == PROBED && call.openOk;
          if fine {
            SetDeviceStatus(i, RUNNING);
          }
        }
      }
      if fine {
        return Done;
      }
      SetDeviceStatus(i, ERROR);
      effect := FailDevice(i);
    }

    /** One turn of the probe loop: it keeps ERROR and makes no device RUNNING, unless it brings up this
        one from READY. */
    method VisitDevice(id: int, call: Call) returns (effect: Effect)
      requires Valid()
      modifies this, status
      ensures Visited(status[..], effect) == Visit(b, old(status[..]), id, call)
      ensures Quiet(old(status[..]), status[..]) || Boots(b, old(status[..]), id, call, status[..])
      ensures past == old(past) + [old(status[..])]
      ensures boots == if InRange(b, id) && old(status[..])[id] != RUNNING && status[id] == RUNNING
                       then old(boots) + [Boot(id, old(status[..]))] else old(boots)
    {
      hide Failure;
      hide AfterProbe;
      hide NotReady;
      hide Pending;
      hide CanTransit;
      hide Quiet;
      hide Boots;
      ghost var was := status[..];
      past := past + [was];
      effect := Skipped;
      VisitQuietOrBoots(b, was, id, call);
      if id < 0 || id >= |b.devs| {
        return;
      }
      if status[id] == DISABLED || b.devs[id].direct || status[id] == PROBED || status[id] == RUNNING {
        return;
      }
      var notReady := DependencyNotReady(id);
      if notReady {
        var pending := DependencyPending(id);
        effect := Deferred;
        if !pending {
          SetDeviceStatus(id, DISABLED);
          effect := Failed;
        }
      } else if !b.devs[id].probes {
        SetDeviceStatus(id, DISABLED);
        if b.devs[id].named {
          effect := FailDevice(id);
        }
      } else {
        effect := ProbeDevice(id, call);
      }
      if was[id] != RUNNING && status[id] == RUNNING {
        boots := boots + [Boot(id, was)];
      }
    }

    /** The state of a probe as a value. */
    ghost predicate Matches(t: Tally, fail: nat)
      reads this, status
    {
      status[..] == t.st && boots == t.boots && past == t.past && fail == t.fail % 256
    }

    /** board_driver_probe_all. Failures are counted in eight bits. A panic does not return. */
    method Probe(calls: (nat, nat) -> Call) returns (result: nat, panicked: bool)
      requires Valid() && boots == [] && past == []
      modifies this, status
      ensures var t := ProbeAllOn(b, old(status[..]), calls);
              && status[..] == t.st && boots == t.boots && past == t.past
              && panicked == t.panicked && (!panicked ==> result == t.fail % 256)
              && Explained(b, old(status[..]), t)
              && (!panicked && !MetAgain(b, t.turns) && !StallMeetsDisabled(b, t.turns) ==>
                    result == |FailedDevices(b, t.turns)| % 256)
    {
      hide Pass;
      hide Stall;
      hide Explained;
      var fail, prev, pass := 0, 0, 0;
      ghost var t := Begin(status[..]);
      RunningIsExplained(b, status[..], calls);
      CountIsFailedIff(b, status[..], calls);
      result, panicked := 0, false;
      while pass < 3
        invariant 0 <= pass <= 3 && !t.panicked && !panicked && 0 <= prev && Fits(b, t.st)
        invariant Matches(t, fail)
        invariant ProbeAllOn(b, old(status[..]), calls) == Passes(b, t, pass, prev, calls)
      {
        var deferred;
        fail, deferred, panicked := OnePass(calls, pass, fail, t);
        if panicked {
          return;
        }
        t := Pass(b, t, pass, calls, |b.order|);
        if deferred == 0 {
          break;
        }
        if deferred == prev {
          fail := DisableStalled(fail, t);
          t := Stall(b, t, |b.order|);
          break;
        }
        prev := deferred;
        pass := pass + 1;
      }
      result := fail;
    }

    /** One turn of the loop with its counters. */
    method OneTurn(id: int, call: Call, failed: nat, ghost t: Tally, ghost pass: nat)
      returns (fail: nat, deferred: bool, panicked: bool)
      requires Valid() && Fits(b, t.st) && Matches(t, failed)
      modifies this, status
      ensures var r := Count(b, t, pass, id, call);
              && Matches(r, fail) && r.deferred == t.deferred + (if deferred then 1 else 0) && panicked == r.panicked
    {
      hide Visit;
      hide Quiet;
      hide Boots;
      var effect := VisitDevice(id, call);
      fail := if effect == Failed then (failed + 1) % 256 else failed;
      deferred, panicked := effect == Deferred, effect == Panicked;
    }

    method OnePass(calls: (nat, nat) -> Call, pass: nat, failed: nat, ghost t: Tally)
      returns (fail: nat, deferred: nat, panicked: bool)
      requires Valid() && Fits(b, t.st) && Matches(t, failed) && !t.panicked
      modifies this, status
      ensures var r := Pass(b, t, pass, calls, |b.order|);
              Matches(r, fail) && deferred == r.deferred && panicked == r.panicked
    {
      hide Count;
      fail, deferred, panicked := failed, 0, false;
      for k := 0 to |b.order|
        invariant !panicked
        invariant var r := Pass(b, t, pass, calls, k); Matches(r, fail) && deferred == r.deferred && !r.panicked
      {
        var late;
        fail, late, panicked := OneTurn(b.order[k], calls(pass, k), fail, Pass(b, t, pass, calls, k), pass);
        if late {
          deferred := deferred + 1;
        }
        if panicked {
          PassAfterPanic(b, t, pass, calls, k + 1, |b.order|);
          return;
        }
      }
    }

    method DisableStalled(failed: nat, ghost t: Tally) returns (fail: nat)
      requires Valid() && Fits(b, t.st) && Matches(t, failed)
      modifies this, status
      ensures var r := Stall(b, t, |b.order|); Matches(r, fail) && r.panicked == t.panicked
    {
      hide StallOne;
      fail := failed;
      for k := 0 to |b.order|
        invariant var r := Stall(b, t, k); Matches(r, fail) && r.panicked == t.panicked
      {
        fail := DisableStuck(b.order[k], fail, Stall(b, t, k));
      }
    }

    method DisableStuck(id: int, failed: nat, ghost t: Tally) returns (fail: nat)
      requires Valid() && Fits(b, t.st) && Matches(t, failed)
      modifies this, status
      ensures var r := StallOne(b, t, id); Matches(r, fail) && r.panicked == t.panicked
    {
      hide Pending;
      hide SetStatus;
      fail := failed;
      if 0 <= id < |b.devs| && status[id] != PROBED && status[id] != RUNNING {
        var pending := DependencyPending(id);
        if pending {
          past := past + [status[..]];
          SetDeviceStatus(id, DISABLED);
          fail := (fail + 1) % 256;
        }
      }
    }
  }

  lemma {:induction false} PassAfterPanic(b: Board, t: Tally, pass: nat, calls: (nat, nat) -> Call, k: nat, n: nat)
    requires Fits(b, t.st) && k <= n <= |b.order| && Pass(b, t, pass, calls, k).panicked
    ensures Pass(b, t, pass, calls, n) == Pass(b, t, pass, calls, k)
    decreases n
  {
    hide Count;
    if k < n { PassAfterPanic(b, t, pass, calls, k, n - 1); }
  }
}
