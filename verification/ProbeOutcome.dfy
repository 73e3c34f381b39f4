/** What one visit of the probe loop does to a device, case by case, and how a device gets from one status
    to another. */
module ProbeOutcome {
  import opened ProbeAll

  // ---- Paths through the status machine ----

  /** The statuses each status can be entered from, besides itself. */
  function Sources(to: Status): set<Status> {
    match to
    case DISABLED => {UNINIT, READY, REMOVED}
    case UNINIT => {DISABLED}
    case READY => {DISABLED, UNINIT, PROBED, RUNNING, SUSPENDED, REMOVED}
    case PROBED => {READY, RUNNING}
    case RUNNING => {PROBED, SUSPENDED}
    case SUSPENDED => {PROBED, RUNNING}
    case ERROR => {UNINIT, READY, PROBED, RUNNING, SUSPENDED}
    case REMOVED => {PROBED, RUNNING, SUSPENDED, ERROR}
  }

  lemma TransitIffSource(from: Status, to: Status)
    ensures CanTransit(from, to) <==> from == to || from in Sources(to)
  {
  }

  predicate Up(s: Status) {
    s in {PROBED, RUNNING, SUSPENDED}
  }

  /** A sequence of statuses a device can go through. */
  ghost predicate Path(p: seq<Status>) {
    p != [] && forall i :: 0 <= i < |p| - 1 ==> CanTransit(p[i], p[i + 1])
  }

  /** A device that goes from down to up is READY and then PROBED just after. */
  lemma {:induction false} ComesUpThroughReady(p: seq<Status>) returns (k: nat)
    requires Path(p) && !Up(p[0]) && Up(p[|p| - 1])
    ensures k + 1 < |p| && p[k] == READY && p[k + 1] == PROBED && (forall i :: k < i < |p| ==> Up(p[i]))
    decreases |p|
  {
    var n := |p| - 1;
    assert CanTransit(p[n - 1], p[n]);
    if Up(p[n - 1]) {
      k := ComesUpThroughReady(p[..n]);
      assert forall i :: k < i < n ==> p[..n][i] == p[i];
    } else {
      k := n - 1;
    }
  }

  /** Whatever status a failed device reaches, REMOVED is the first one after ERROR. */
  lemma {:induction false} RecoversThroughRemoved(p: seq<Status>)
    requires Path(p) && p[0] == ERROR && p[|p| - 1] != ERROR
    ensures exists k :: 0 < k < |p| && p[k] == REMOVED && p[..k] == seq(k, _ => ERROR)
    decreases |p|
  {
    assert CanTransit(p[0], p[1]);
    if p[1] == ERROR {
      var rest := p[1..];
      forall i | 0 <= i < |rest| - 1 ensures CanTransit(rest[i], rest[i + 1]) {
        assert CanTransit(p[i + 1], p[i + 2]);
      }
      RecoversThroughRemoved(rest);
      var k :| 0 < k < |rest| && rest[k] == REMOVED && rest[..k] == seq(k, _ => ERROR);
      assert p[..k + 1] == [p[0]] + rest[..k];
      assert p[k + 1] == REMOVED && p[..k + 1] == seq(k + 1, _ => ERROR);
    } else {
      assert p[..1] == seq(1, _ => ERROR);
    }
  }

  // ---- One visit ----

  /** Some dependency is missing, or is probed by the loop and broken. */
  ghost predicate Blocked(b: Board, st: Table, i: nat)
    requires Fits(b, st) && i < |st|
  {
    exists dep :: dep in b.devs[i].deps && (InRange(b, dep) ==> !b.devs[dep].direct && st[dep] in {ERROR, REMOVED})
  }

  ghost predicate Waiting(b: Board, st: Table, i: nat)
    requires Fits(b, st) && i < |st|
  {
    exists dep :: dep in b.devs[i].deps && (InRange(b, dep) ==> !b.devs[dep].direct && !Up(st[dep]))
  }

  lemma NotReadyIff(b: Board, st: Table, i: nat)
    requires Fits(b, st) && i < |st|
    ensures NotReady(b, st, i) <==> Blocked(b, st, i)
    ensures Pending(b, st, i) <==> Waiting(b, st, i)
  {
    var deps := b.devs[i].deps;
    if NotReady(b, st, i) {
      var k :| 0 <= k < |deps| && Broken(b, st, deps[k]);
      assert deps[k] in deps;
    }
    if Blocked(b, st, i) {
      var dep :| dep in deps && (InRange(b, dep) ==> !b.devs[dep].direct && st[dep] in {ERROR, REMOVED});
      assert Broken(b, st, dep);
    }
    if Pending(b, st, i) {
      var k :| 0 <= k < |deps| && Unfinished(b, st, deps[k]);
      assert deps[k] in deps;
    }
    if Waiting(b, st, i) {
      var dep :| dep in deps && (InRange(b, dep) ==> !b.devs[dep].direct && !Up(st[dep]));
      assert Unfinished(b, st, dep);
    }
  }

  /** The visit leaves the device to itself. */
  ghost predicate Settled(b: Board, st: Table, i: nat)
    requires Fits(b, st) && i < |st|
  {
    b.devs[i].direct || st[i] in {DISABLED, PROBED, RUNNING}
  }

  /** Its probe succeeds, and so does opening it where the probe asks for that. */
  ghost predicate ComesUp(st: Table, i: nat, call: Call)
    requires i < |st|
  {
    call.ret == Ok && (call.opens ==> call.openOk && st[i] == READY)
  }

  ghost predicate Goes(b: Board, st: Table, i: nat)
    requires Fits(b, st) && i < |st|
  {
    !Settled(b, st, i) && !Blocked(b, st, i)
  }

  /** A device fails when its driver is named but there is none, when its probe fails and when opening it
      does. */
  ghost predicate GoesWrong(b: Board, st: Table, i: nat, call: Call)
    requires Fits(b, st) && i < |st|
  {
    && Goes(b, st, i)
    && if b.devs[i].probes then call.ret != Defer && !ComesUp(st, i, call) else b.devs[i].named
  }

  /** Where a failed device ends: DISABLED without a driver, ERROR otherwise, each as far as the status
      machine allows. */
  function AfterFailure(s: Status, probes: bool): Status {
    if probes then (if s == REMOVED then REMOVED else ERROR)
    else if s in {UNINIT, READY, REMOVED} then DISABLED else s
  }

  /** The effect of a visit, for every device, table and answer of the callbacks. */
  lemma EffectIs(b: Board, st: Table, i: nat, call: Call)
    requires Fits(b, st) && i < |st|
    ensures var e, d := Visit(b, st, i, call).effect, b.devs[i];
            && (e == Deferred <==> !Settled(b, st, i) && (Blocked(b, st, i) || (d.probes && call.ret == Defer)))
            && (e == Done <==> Goes(b, st, i) && d.probes && ComesUp(st, i, call))
            && (e == Panicked <==> GoesWrong(b, st, i, call) && d.fatal)
            && (e == Failed <==> GoesWrong(b, st, i, call) && !d.fatal)
  {
    hide NotReady;
    hide Pending;
    hide Blocked;
    hide Waiting;
    hide Cascade;
    NotReadyIff(b, st, i);
    if NotReady(b, st, i) { NotReadyIsPending(b, st, i); }
  }

  /** The table after a visit. A device whose probe succeeds is PROBED, and RUNNING when opening was asked
      for; a failed one ends as the status machine allows, with its READY and UNINIT dependents DISABLED
      unless the visit panicked; one without a named driver is disabled; otherwise nothing changes. */
  lemma VisitLeaves(b: Board, st: Table, i: nat, call: Call, x: nat)
    requires Fits(b, st) && i < |st| && x < |st|
    ensures var v, d := Visit(b, st, i, call), b.devs[i];
            v.st[x] ==
            if v.effect == Deferred then st[x]
            else if v.effect == Done then
              if x == i && st[x] == READY then (if call.opens then RUNNING else PROBED) else st[x]
            else if v.effect == Skipped then
              if x == i && !Settled(b, st, i) then AfterFailure(st[x], false) else st[x]
            else if x == i then AfterFailure(st[x], d.probes)
            else if v.effect == Failed && x in d.dependents && Idle(st[x]) then DISABLED
            else st[x]
  {
    hide NotReady;
    hide Pending;
    hide Blocked;
    hide Waiting;
    hide Failure;
    hide AfterProbe;
    NotReadyIff(b, st, i);
    if NotReady(b, st, i) { NotReadyIsPending(b, st, i); }
    if !Settled(b, st, i) && !NotReady(b, st, i) {
      FailureLeaves(b, SetStatus(st, i, DISABLED), i, x);
      ProbeLeaves(b, st, i, call, x);
    }
  }

  lemma ProbeLeaves(b: Board, st: Table, i: nat, call: Call, x: nat)
    requires Fits(b, st) && i < |st| && x < |st| && st[i] !in {DISABLED, PROBED, RUNNING}
    ensures var v, d := AfterProbe(b, st, i, call), b.devs[i];
            && v.effect != Skipped
            && v.st[x] ==
               if v.effect == Deferred then st[x]
               else if v.effect == Done then
                 if x == i && st[x] == READY then (if call.opens then RUNNING else PROBED) else st[x]
               else if x == i then AfterFailure(st[x], true)
               else if v.effect == Failed && x in d.dependents && Idle(st[x]) then DISABLED
               else st[x]
  {
    hide Failure;
    FailureLeaves(b, SetStatus(st, i, ERROR), i, x);
    FailureLeaves(b, SetStatus(SetStatus(st, i, PROBED), i, ERROR), i, x);
  }

  lemma FailureLeaves(b: Board, st: Table, i: nat, x: nat)
    requires Fits(b, st) && i < |st| && x < |st|
    ensures var v, d := Failure(b, st, i), b.devs[i];
            && v.effect == (if d.fatal then Panicked else Failed)
            && v.st[x] == if !d.fatal && x in d.dependents && Idle(st[x]) then DISABLED else st[x]
  {
    hide Cascade;
    var list := b.devs[i].dependents;
    CascadeIs(b, st, list, |list|, x);
    assert list[..|list|] == list;
  }

  /** After a stall a device is disabled and counted exactly when it is not up and some dependency is missing
      or not up; one that is SUSPENDED or in ERROR is counted and keeps its status. */
  lemma StallIs(b: Board, t: Tally, i: nat)
    requires Fits(b, t.st) && i < |t.st|
    ensures var r, stuck := StallOne(b, t, i), t.st[i] !in {PROBED, RUNNING} && Waiting(b, t.st, i);
            && r.fail == t.fail + (if stuck then 1 else 0)
            && r.st == t.st[i := if stuck && (Idle(t.st[i]) || t.st[i] == REMOVED) then DISABLED else t.st[i]]
  {
    hide Pending;
    hide Waiting;
    NotReadyIff(b, t.st, i);
  }
}
