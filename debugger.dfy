/**
 * The debugger driver (`Debugger`): its breakpoint table, the events the
 * debuggee reports while it runs, and the stepping commands that set
 * temporary breakpoints and clear them afterwards.
 *
 * Writing or clearing a trap instruction and single-stepping the debuggee
 * are operating-system effects; the model records each in `osLog`, in the
 * order they are issued. The address a single step lands on is given by
 * `nextInstr`, standing for the processor.
 */
module Driver {
  import opened Wrappers
  import opened Addresses
  import opened Breakpoints

  /** An operating-system effect on the debuggee. */
  datatype OsOp = Enable(at: PCValue) | Disable(at: PCValue) | SingleStep(from: RelocatedAddress)

  /** What `control_flow_tick` reports. */
  datatype DebugeeEvent =
    | DebugeeExit(code: int)
    | DebugeeStart(mappingAddr: Usize)
    | AtEntryPoint(pc: RelocatedAddress)
    | TrapTrace
    | NoSuchProcess
    | BreakpointHit(pc: RelocatedAddress)
    | OsSignal(signo: int)

  /** Events after which `continue_execution` keeps waiting for the next one. */
  predicate KeepsRunning(e: DebugeeEvent) {
    e.DebugeeStart? || e.AtEntryPoint?
  }

  /** The table after `continue_execution` handled `events`, up to the first that stops it. */
  function TableAfter(t: Table, events: seq<DebugeeEvent>): (r: Table)
    ensures !StartsBeforeStop(events) ==> r == t
    decreases |events|
  {
    if events == [] then t
    else match events[0]
      case DebugeeStart(offset) => TableAfter(EnableAll(RelocateTable(t, offset)), events[1..])
      case AtEntryPoint(_) => TableAfter(t, events[1..])
      case _ => t
  }

  /** Whether a start is reported before the event that stops `continue_execution`. */
  predicate StartsBeforeStop(events: seq<DebugeeEvent>) {
    events != [] && (events[0].DebugeeStart? || (events[0].AtEntryPoint? && StartsBeforeStop(events[1..])))
  }

  /** A table of relocated, enabled breakpoints is not changed by running. */
  lemma {:induction false} TableAfterSettled(t: Table, events: seq<DebugeeEvent>)
    requires AllRelocated(t) && AllEnabled(t)
    ensures TableAfter(t, events) == t
    decreases |events|
  {
    if events != [] {
      match events[0]
      case DebugeeStart(offset) =>
        StartKeepsSettledTable(t, offset);
        TableAfterSettled(t, events[1..]);
      case AtEntryPoint(_) =>
        TableAfterSettled(t, events[1..]);
      case _ =>
    }
  }

  /** After a start is handled, every breakpoint is relocated and enabled. */
  lemma {:induction false} TableAfterStart(t: Table, events: seq<DebugeeEvent>)
    requires StartsBeforeStop(events)
    ensures AllRelocated(TableAfter(t, events)) && AllEnabled(TableAfter(t, events))
    decreases |events|
  {
    match events[0]
    case DebugeeStart(offset) =>
      TableAfterSettled(EnableAll(RelocateTable(t, offset)), events[1..]);
    case AtEntryPoint(_) =>
      TableAfterStart(t, events[1..]);
  }

  /** Where `step_over_breakpoint` leaves the program counter: one instruction on at a written breakpoint. */
  function PcAfterStepOver(t: Table, pc: RelocatedAddress, next: Usize -> Usize): RelocatedAddress {
    var k := Relocated(pc);
    if k in t && t[k].enabled then RelocatedAddress(next(pc.value)) else pc
  }

  /** What `step_over_breakpoint` issues: at a written breakpoint, clear it, step, write it again. */
  function StepOverOps(t: Table, pc: RelocatedAddress): seq<OsOp> {
    var k := Relocated(pc);
    if k in t && t[k].enabled then [Disable(k), SingleStep(pc), Enable(k)] else []
  }

  /** The mapping offset once `continue_execution` has handled `events`: the last start's. */
  function OffsetAfter(offset: Option<Usize>, events: seq<DebugeeEvent>): Option<Usize>
    decreases |events|
  {
    if events == [] then offset
    else match events[0]
      case DebugeeStart(o) => OffsetAfter(Some(o), events[1..])
      case AtEntryPoint(_) => OffsetAfter(offset, events[1..])
      case _ => offset
  }

  /**
   * The program counter once `continue_execution` has handled `events`,
   * from table `t` and counter `pc`: a breakpoint hit sets it, an entry
   * point sets it and steps over a breakpoint there.
   */
  function PcAfter(t: Table, pc: RelocatedAddress, events: seq<DebugeeEvent>, next: Usize -> Usize): RelocatedAddress
    decreases |events|
  {
    if events == [] then pc
    else match events[0]
      case DebugeeStart(o) => PcAfter(EnableAll(RelocateTable(t, o)), pc, events[1..], next)
      case AtEntryPoint(at) => PcAfter(t, PcAfterStepOver(t, at, next), events[1..], next)
      case BreakpointHit(at) => at
      case _ => pc
  }

  /** `log` writes every breakpoint of `t` once, in the order of the table's iteration. */
  ghost predicate WritesEvery(log: seq<OsOp>, t: Table) {
    |log| == |t| && forall op :: op in log <==> op.Enable? && op.at in t
  }

  /** `log` is what `continue_execution` issues while handling `events` with table `t`. */
  ghost predicate LogAfter(t: Table, events: seq<DebugeeEvent>, log: seq<OsOp>, next: Usize -> Usize)
    decreases |events|
  {
    if events == [] then log == []
    else match events[0]
      case DebugeeStart(o) =>
        var t' := EnableAll(RelocateTable(t, o));
        |t'| <= |log| && WritesEvery(log[..|t'|], t') && LogAfter(t', events[1..], log[|t'|..], next)
      case AtEntryPoint(at) =>
        var ops := StepOverOps(t, at);
        |ops| <= |log| && log[..|ops|] == ops && LogAfter(t, events[1..], log[|ops|..], next)
      case _ => log == []
  }

  /** `log` is what the whole of `continue_execution` issues: its first step over, then the events' effects. */
  ghost predicate RunLog(t: Table, pc: RelocatedAddress, events: seq<DebugeeEvent>, log: seq<OsOp>, next: Usize -> Usize) {
    var ops := StepOverOps(t, pc);
    |ops| <= |log| && log[..|ops|] == ops && LogAfter(t, events, log[|ops|..], next)
  }

  /**
   * Part way through writing every breakpoint of `t0`: the keys in `rest`
   * are untouched, every other key is enabled, and `written` holds exactly
   * one write per key already done.
   */
  ghost predicate Enabling(t0: Table, t: Table, rest: set<PCValue>, written: seq<OsOp>)
  {
    && rest <= t0.Keys && t.Keys == t0.Keys
    && (forall k :: k in t ==> t[k] == if k in rest then t0[k] else t0[k].(enabled := true))
    && (forall op :: op in written <==> op.Enable? && op.at in t0 && op.at !in rest)
    && |written| + |rest| == |t0.Keys|
  }

  lemma EnablingStarts(t0: Table)
    ensures Enabling(t0, t0, t0.Keys, [])
  {
  }

  lemma EnablingStep(t0: Table, t: Table, rest: set<PCValue>, written: seq<OsOp>, k: PCValue)
    requires Enabling(t0, t, rest, written) && k in rest
    ensures Enabling(t0, t[k := t[k].(enabled := true)], rest - {k}, written + [Enable(k)])
  {
    assert |rest - {k}| == |rest| - 1;
  }

  lemma EnablingDone(t0: Table, t: Table, written: seq<OsOp>)
    requires Enabling(t0, t, {}, written)
    ensures t == EnableAll(t0)
    ensures forall op :: op in written <==> op.Enable? && op.at in t
    ensures |written| == |t.Keys|
  {
  }

  lemma DropAppend<T>(a: seq<T>, b: seq<T>, n: nat)
    requires n <= |a|
    ensures (a + b)[n..] == a[n..] + b
  {
  }

  /**
   * Whatever `log` the events `rest` go on to issue from table `now`, the
   * whole run from `t` issues `done` followed by it.
   */
  ghost predicate Resumes(t: Table, pc: RelocatedAddress, events: seq<DebugeeEvent>, now: Table, rest: seq<DebugeeEvent>,
                          done: seq<OsOp>, next: Usize -> Usize)
  {
    forall log :: LogAfter(now, rest, log, next) ==> RunLog(t, pc, events, done + log, next)
  }

  /** Handling `events` from `t` issues `seg`, then whatever `rest` issues from `t'`. */
  ghost predicate Leads(t: Table, events: seq<DebugeeEvent>, t': Table, rest: seq<DebugeeEvent>, seg: seq<OsOp>,
                        next: Usize -> Usize)
  {
    forall log :: LogAfter(t', rest, log, next) ==> LogAfter(t, events, seg + log, next)
  }

  lemma ResumesAfter(t: Table, pc: RelocatedAddress, events: seq<DebugeeEvent>, now: Table, now': Table,
                     rest: seq<DebugeeEvent>, rest': seq<DebugeeEvent>, done: seq<OsOp>, seg: seq<OsOp>, next: Usize -> Usize)
    requires Resumes(t, pc, events, now, rest, done, next)
    requires Leads(now, rest, now', rest', seg, next)
    ensures Resumes(t, pc, events, now', rest', done + seg, next)
  {
    forall log | LogAfter(now', rest', log, next)
      ensures RunLog(t, pc, events, (done + seg) + log, next)
    {
      assert (done + seg) + log == done + (seg + log);
    }
  }

  lemma RunLogOf(t: Table, pc: RelocatedAddress, events: seq<DebugeeEvent>, log: seq<OsOp>, next: Usize -> Usize)
    requires LogAfter(t, events, log, next)
    ensures RunLog(t, pc, events, StepOverOps(t, pc) + log, next)
  {
    var ops := StepOverOps(t, pc);
    assert (ops + log)[..|ops|] == ops && (ops + log)[|ops|..] == log;
  }

  /** An event that stops `continue_execution` changes nothing but, for a breakpoint hit, the program counter. */
  lemma StopsHere(t: Table, offset: Option<Usize>, pc: RelocatedAddress, events: seq<DebugeeEvent>, next: Usize -> Usize)
    requires events != [] && !KeepsRunning(events[0])
    ensures TableAfter(t, events) == t && !StartsBeforeStop(events) && OffsetAfter(offset, events) == offset
    ensures PcAfter(t, pc, events, next) == if events[0].BreakpointHit? then events[0].pc else pc
    ensures LogAfter(t, events, [], next)
  {
  }

  /** Handling a start: the writes of every relocated breakpoint, then the rest. */
  lemma LogAfterStart(t: Table, events: seq<DebugeeEvent>, writes: seq<OsOp>, log: seq<OsOp>, next: Usize -> Usize)
    requires events != [] && events[0].DebugeeStart?
    requires WritesEvery(writes, EnableAll(RelocateTable(t, events[0].mappingAddr)))
    requires LogAfter(EnableAll(RelocateTable(t, events[0].mappingAddr)), events[1..], log, next)
    ensures LogAfter(t, events, writes + log, next)
  {
    assert (writes + log)[..|writes|] == writes && (writes + log)[|writes|..] == log;
  }

  /** Handling an entry point: a step over the breakpoint there, then the rest. */
  lemma LogAfterEntry(t: Table, events: seq<DebugeeEvent>, log: seq<OsOp>, next: Usize -> Usize)
    requires events != [] && events[0].AtEntryPoint?
    requires LogAfter(t, events[1..], log, next)
    ensures LogAfter(t, events, StepOverOps(t, events[0].pc) + log, next)
  {
    var ops := StepOverOps(t, events[0].pc);
    assert (ops + log)[..|ops|] == ops && (ops + log)[|ops|..] == log;
  }

  // ---------------------------------------------------------------------
  // Temporary breakpoints

  /** The table once `set_breakpoint` has added an enabled breakpoint at each of `xs`, in order. */
  function WithTemporaries(t: Table, xs: seq<RelocatedAddress>): Table
    decreases |xs|
  {
    if xs == [] then t
    else WithTemporaries(t[Relocated(xs[0]) := Breakpoint(Relocated(xs[0]), true)], xs[1..])
  }

  /** The writes `set_breakpoint` issues for `xs` while the debuggee runs. */
  function EnableOps(xs: seq<RelocatedAddress>): (ops: seq<OsOp>)
    ensures |ops| == |xs| && forall q :: 0 <= q < |xs| ==> ops[q] == Enable(Relocated(xs[q]))
  {
    if xs == [] then [] else [Enable(Relocated(xs[0]))] + EnableOps(xs[1..])
  }

  /** The clears `remove_breakpoint` issues for `xs` from table `t`: one per written breakpoint still there. */
  function DisableOps(t: Table, xs: seq<RelocatedAddress>): (ops: seq<OsOp>)
    ensures forall op :: op in ops ==> op.Disable? && op.at in t && t[op.at].enabled
    decreases |xs|
  {
    if xs == [] then []
    else
      var k := Relocated(xs[0]);
      (if k in t && t[k].enabled then [Disable(k)] else []) + DisableOps(t - {k}, xs[1..])
  }

  /** The table keys of the temporary addresses. */
  function TemporaryKeys(xs: seq<RelocatedAddress>): set<PCValue> {
    set x | x in xs :: Relocated(x)
  }

  /**
   * The temporaries of a stepping command: the step targets, then the
   * return address unless a breakpoint is already there.
   */
  function Temporaries(targets: seq<RelocatedAddress>, retAddr: Option<RelocatedAddress>, t: Table): seq<RelocatedAddress> {
    targets + (if retAddr.Some? && Relocated(retAddr.value) !in t && retAddr.value !in targets then [retAddr.value] else [])
  }

  /**
   * What adding temporaries does at one key: a temporary key holds an
   * enabled breakpoint at that address, and every other key is as before.
   */
  lemma {:induction false} WithTemporariesAt(t: Table, xs: seq<RelocatedAddress>, k: PCValue)
    ensures k in WithTemporaries(t, xs) <==> k in t || k in TemporaryKeys(xs)
    ensures k in TemporaryKeys(xs) ==> WithTemporaries(t, xs)[k] == Breakpoint(k, true)
    ensures k in t && k !in TemporaryKeys(xs) ==> WithTemporaries(t, xs)[k] == t[k]
    decreases |xs|
  {
    if xs != [] {
      var x := Relocated(xs[0]);
      WithTemporariesAt(t[x := Breakpoint(x, true)], xs[1..], k);
      assert TemporaryKeys(xs) == {x} + TemporaryKeys(xs[1..]) by {
        assert forall y :: y in xs <==> y == xs[0] || y in xs[1..];
      }
    }
  }

  /** Adding one more temporary at the end. */
  lemma {:induction false} WithTemporariesSnoc(t: Table, xs: seq<RelocatedAddress>, x: RelocatedAddress)
    ensures WithTemporaries(t, xs + [x]) == WithTemporaries(t, xs)[Relocated(x) := Breakpoint(Relocated(x), true)]
    ensures EnableOps(xs + [x]) == EnableOps(xs) + [Enable(Relocated(x))]
    decreases |xs|
  {
    if xs == [] {
      assert xs + [x] == [x];
    } else {
      assert (xs + [x])[1..] == xs[1..] + [x];
      WithTemporariesSnoc(t[Relocated(xs[0]) := Breakpoint(Relocated(xs[0]), true)], xs[1..], x);
    }
  }

  /**
   * Adding temporaries at free addresses and removing them again gives the
   * table back: the temporaries leave no trace.
   */
  lemma TemporariesLeaveNoTrace(t: Table, xs: seq<RelocatedAddress>)
    requires forall x :: x in xs ==> Relocated(x) !in t
    ensures WithTemporaries(t, xs) - TemporaryKeys(xs) == t
  {
    var w := WithTemporaries(t, xs) - TemporaryKeys(xs);
    forall k | k in w || k in t
      ensures k in w && k in t && w[k] == t[k]
    {
      WithTemporariesAt(t, xs, k);
    }
  }

  /**
   * `log` is what a stepping command issues around a run: the writes of
   * the temporaries `temps` added to `t`, the run's effects, then the clears
   * of the temporaries still written once the run stops.
   */
  ghost predicate StepLog(t: Table, pc: RelocatedAddress, temps: seq<RelocatedAddress>, events: seq<DebugeeEvent>,
                          log: seq<OsOp>, next: Usize -> Usize)
  {
    var withTemps := WithTemporaries(t, temps);
    var pre := EnableOps(temps);
    var post := DisableOps(TableAfter(withTemps, events), temps);
    |pre| + |post| <= |log| && log[..|pre|] == pre && log[|log| - |post|..] == post
    && RunLog(withTemps, pc, events, log[|pre|..|log| - |post|], next)
  }

  lemma StepLogOf(t: Table, pc: RelocatedAddress, temps: seq<RelocatedAddress>, events: seq<DebugeeEvent>,
                  run: seq<OsOp>, next: Usize -> Usize)
    requires RunLog(WithTemporaries(t, temps), pc, events, run, next)
    ensures StepLog(t, pc, temps, events,
                    EnableOps(temps) + run + DisableOps(TableAfter(WithTemporaries(t, temps), events), temps), next)
  {
    var pre := EnableOps(temps);
    var post := DisableOps(TableAfter(WithTemporaries(t, temps), events), temps);
    var log := pre + run + post;
    assert log[..|pre|] == pre;
    assert log[|log| - |post|..] == post;
    assert log[|pre|..|log| - |post|] == run;
  }

  /**
   * A log that continues `before`, whose tail from `start` is the writes of
   * the temporaries, with a run and then the clears of the temporaries.
   */
  lemma StepLogAround(t: Table, pc: RelocatedAddress, temps: seq<RelocatedAddress>, events: seq<DebugeeEvent>,
                      before: seq<OsOp>, start: nat, run: seq<OsOp>, whole: seq<OsOp>, next: Usize -> Usize)
    requires start <= |before| && before[start..] == EnableOps(temps)
    requires RunLog(WithTemporaries(t, temps), pc, events, run, next)
    requires whole == before + run + DisableOps(TableAfter(WithTemporaries(t, temps), events), temps)
    ensures start <= |whole| && whole[..start] == before[..start]
    ensures StepLog(t, pc, temps, events, whole[start..], next)
  {
    var post := DisableOps(TableAfter(WithTemporaries(t, temps), events), temps);
    StepLogOf(t, pc, temps, events, run, next);
    assert whole[start..] == EnableOps(temps) + run + post by {
      DropAppend(before + run, post, start);
      DropAppend(before, run, start);
    }
  }

  /** How a stepping command ends. */
  datatype Outcome = Done | NotStarted | NotInDebugFrame | CurrentLineNotFound | UnknownFunctionRange

  /** A row of the line table: an address and whether it starts a statement. */
  datatype LineRow = LineRow(address: GlobalAddress, isStmt: bool)

  /**
   * An address range of a function, with the line rows `find_place_from_pc`
   * and `next()` visit from its start (`None` when no row is found there).
   */
  datatype FunctionRange = FunctionRange(begin: Usize, end: Usize, walk: Option<seq<LineRow>>)

  /** Whether `step_over` sets a temporary breakpoint at this row. */
  predicate IsStepTarget(row: LineRow, current: GlobalAddress, offset: Usize, t: Table) {
    row.isStmt && row.address != current && Relocated(Relocate(row.address, offset)) !in t
  }

  /** The targets among the rows visited before the first one at or past `end`. */
  function RangeTargets(rows: seq<LineRow>, end: Usize, current: GlobalAddress, offset: Usize, t: Table): (r: seq<RelocatedAddress>)
    ensures forall x :: x in r ==> Relocated(x) !in t
  {
    if rows == [] || rows[0].address.value >= end then []
    else
      (if IsStepTarget(rows[0], current, offset, t) then [Relocate(rows[0].address, offset)] else [])
      + RangeTargets(rows[1..], end, current, offset, t)
  }

  /** The rows the walk over one range visits. */
  function Visited(rows: seq<LineRow>, end: Usize): (v: seq<LineRow>)
    ensures |v| <= |rows| && v == rows[..|v|]
    ensures forall j :: 0 <= j < |v| ==> v[j].address.value < end
    ensures |v| < |rows| ==> rows[|v|].address.value >= end
  {
    if rows == [] || rows[0].address.value >= end then [] else [rows[0]] + Visited(rows[1..], end)
  }

  /** A relocated address is a target of a range exactly when a visited row yields it. */
  lemma {:induction false} RangeTargetsIff(rows: seq<LineRow>, end: Usize, current: GlobalAddress, offset: Usize, t: Table, x: RelocatedAddress)
    ensures x in RangeTargets(rows, end, current, offset, t) <==>
              exists j :: 0 <= j < |Visited(rows, end)| && IsStepTarget(rows[j], current, offset, t)
                          && x == Relocate(rows[j].address, offset)
  {
    if rows != [] && rows[0].address.value < end {
      var tail := rows[1..];
      RangeTargetsIff(tail, end, current, offset, t, x);
      var v := Visited(rows, end);
      assert |v| == 1 + |Visited(tail, end)|;
      assert x in RangeTargets(rows, end, current, offset, t) <==>
               (IsStepTarget(rows[0], current, offset, t) && x == Relocate(rows[0].address, offset))
               || x in RangeTargets(tail, end, current, offset, t);
      forall j | 1 <= j < |rows|
        ensures rows[j] == tail[j - 1]
      {
      }
    }
  }

  /** `Some(prefix + s)` for `Some(s)`; `None` stays `None`. */
  function Prepend(prefix: seq<RelocatedAddress>, s: Option<seq<RelocatedAddress>>): Option<seq<RelocatedAddress>> {
    if s.None? then None else Some(prefix + s.value)
  }

  /**
   * The temporary breakpoints `step_over` sets for the function's ranges, in
   * order; `None` when a range's start has no line row.
   */
  function StepTargets(ranges: seq<FunctionRange>, current: GlobalAddress, offset: Usize, t: Table): (r: Option<seq<RelocatedAddress>>)
    ensures r.Some? ==> forall x :: x in r.value ==> Relocated(x) !in t
    ensures r.None? <==> exists i :: 0 <= i < |ranges| && ranges[i].walk.None?
  {
    if ranges == [] then Some([])
    else if ranges[0].walk.None? then None
    else
      var rest := StepTargets(ranges[1..], current, offset, t);
      assert forall i :: 1 <= i < |ranges| ==> ranges[i] == ranges[1..][i - 1];
      Prepend(RangeTargets(ranges[0].walk.value, ranges[0].end, current, offset, t), rest)
  }

  /** Every target is a statement row inside some range, other than the current line, with no breakpoint yet. */
  lemma {:induction false} StepTargetsAreStatementRows(ranges: seq<FunctionRange>, current: GlobalAddress, offset: Usize, t: Table, x: RelocatedAddress)
    requires StepTargets(ranges, current, offset, t).Some?
    requires x in StepTargets(ranges, current, offset, t).value
    ensures exists i, j :: 0 <= i < |ranges| && ranges[i].walk.Some?
              && 0 <= j < |Visited(ranges[i].walk.value, ranges[i].end)|
              && IsStepTarget(ranges[i].walk.value[j], current, offset, t)
              && x == Relocate(ranges[i].walk.value[j].address, offset)
  {
    var rows := ranges[0].walk.value;
    var here := RangeTargets(rows, ranges[0].end, current, offset, t);
    RangeTargetsIff(rows, ranges[0].end, current, offset, t, x);
    if x !in here {
      StepTargetsAreStatementRows(ranges[1..], current, offset, t, x);
      var i, j :| 0 <= i < |ranges[1..]| && ranges[1..][i].walk.Some?
                  && 0 <= j < |Visited(ranges[1..][i].walk.value, ranges[1..][i].end)|
                  && IsStepTarget(ranges[1..][i].walk.value[j], current, offset, t)
                  && x == Relocate(ranges[1..][i].walk.value[j].address, offset);
      assert ranges[i + 1] == ranges[1..][i];
    }
  }

  /** Conversely, every such row inside a range yields a target. */
  lemma {:induction false} StatementRowsAreStepTargets(ranges: seq<FunctionRange>, current: GlobalAddress, offset: Usize, t: Table, i: nat, j: nat)
    requires StepTargets(ranges, current, offset, t).Some?
    requires i < |ranges| && ranges[i].walk.Some? && j < |Visited(ranges[i].walk.value, ranges[i].end)|
    requires IsStepTarget(ranges[i].walk.value[j], current, offset, t)
    ensures Relocate(ranges[i].walk.value[j].address, offset) in StepTargets(ranges, current, offset, t).value
  {
    var x := Relocate(ranges[i].walk.value[j].address, offset);
    if i == 0 {
      RangeTargetsIff(ranges[0].walk.value, ranges[0].end, current, offset, t, x);
    } else {
      assert ranges[1..][i - 1] == ranges[i];
      StatementRowsAreStepTargets(ranges[1..], current, offset, t, i - 1, j);
    }
  }

  /** `t` holds every entry of `base` unchanged, and otherwise only entries at `extra` addresses. */
  ghost predicate ExtendsWith(t: Table, base: Table, extra: seq<RelocatedAddress>) {
    (forall k :: k in base ==> k in t && t[k] == base[k])
    && (forall k :: k in t ==> k in base || exists q :: 0 <= q < |extra| && k == Relocated(extra[q]))
  }

  /** Adding temporaries at free addresses extends the table with exactly them. */
  lemma WithTemporariesExtend(t: Table, xs: seq<RelocatedAddress>)
    requires forall x :: x in xs ==> Relocated(x) !in t
    ensures ExtendsWith(WithTemporaries(t, xs), t, xs)
    ensures forall x :: x in xs ==> Relocated(x) in WithTemporaries(t, xs)
  {
    var w := WithTemporaries(t, xs);
    forall k | k in t
      ensures k in w && w[k] == t[k]
    {
      WithTemporariesAt(t, xs, k);
    }
    forall k | k in w && k !in t
      ensures exists q :: 0 <= q < |xs| && k == Relocated(xs[q])
    {
      WithTemporariesAt(t, xs, k);
      var x :| x in xs && k == Relocated(x);
      var q :| 0 <= q < |xs| && xs[q] == x;
    }
    forall x | x in xs
      ensures Relocated(x) in w
    {
      WithTemporariesAt(t, xs, Relocated(x));
    }
  }

  /**
   * Part way through removing the temporaries `xs` from `t0`: the first `j`
   * are gone from `t`, and the clears still to come for the others complete
   * the clears of the whole removal.
   */
  ghost predicate Removing(t0: Table, log0: seq<OsOp>, xs: seq<RelocatedAddress>, j: nat, t: Table, log: seq<OsOp>) {
    j <= |xs| && t == t0 - TemporaryKeys(xs[..j]) && log + DisableOps(t, xs[j..]) == log0 + DisableOps(t0, xs)
  }

  lemma RemovingStep(t0: Table, log0: seq<OsOp>, xs: seq<RelocatedAddress>, j: nat, t: Table, log: seq<OsOp>)
    requires Removing(t0, log0, xs, j, t, log) && j < |xs|
    ensures var k := Relocated(xs[j]);
            Removing(t0, log0, xs, j + 1, t - {k}, log + (if k in t && t[k].enabled then [Disable(k)] else []))
  {
    var k := Relocated(xs[j]);
    var cleared := if k in t && t[k].enabled then [Disable(k)] else [];
    var later := DisableOps(t - {k}, xs[j + 1..]);
    assert DisableOps(t, xs[j..]) == cleared + later by {
      assert xs[j..][1..] == xs[j + 1..];
    }
    TemporaryKeysSnoc(xs, j);
    assert (log + cleared) + later == log + (cleared + later);
  }

  lemma TemporaryKeysSnoc(xs: seq<RelocatedAddress>, j: nat)
    requires j < |xs|
    ensures TemporaryKeys(xs[..j + 1]) == TemporaryKeys(xs[..j]) + {Relocated(xs[j])}
  {
    assert xs[..j + 1] == xs[..j] + [xs[j]];
  }

  lemma RemovingDone(t0: Table, log0: seq<OsOp>, xs: seq<RelocatedAddress>, t: Table, log: seq<OsOp>)
    requires Removing(t0, log0, xs, |xs|, t, log)
    ensures t == t0 - TemporaryKeys(xs) && log == log0 + DisableOps(t0, xs)
  {
    assert xs[..|xs|] == xs;
    assert log + [] == log;
  }

  /**
   * Removing the temporary keys from a table that extends `base` with
   * entries at free temporary addresses only gives `base` back, and what
   * is left is exactly the keys that are not temporaries.
   */
  lemma RemovingTemporaries(t: Table, base: Table, xs: seq<RelocatedAddress>)
    ensures forall k :: k in t - TemporaryKeys(xs) <==> k in t && forall x :: x in xs ==> k != Relocated(x)
    ensures (forall x :: x in xs ==> Relocated(x) !in base) && ExtendsWith(t, base, xs) ==> t - TemporaryKeys(xs) == base
  {
  }

  class Debugger {
    /** Active and inactive breakpoints. */
    var breakpoints: Table
    /** Whether the debuggee has started. */
    var inProgress: bool
    /** Where the object file is mapped in the process, once it has started. */
    var mappingOffset: Option<Usize>
    /** The program counter of the thread in focus. */
    var pc: RelocatedAddress
    /** The operating-system effects issued so far. */
    var osLog: seq<OsOp>
    /** The address after the instruction at an address. */
    const nextInstr: Usize -> Usize

    ghost predicate Valid()
      reads this
    {
      KeyedByAddress(breakpoints) && (inProgress ==> mappingOffset.Some?)
    }

    /** A running debuggee whose breakpoints are all at process addresses and all written. */
    ghost predicate Settled()
      reads this
    {
      inProgress && AllRelocated(breakpoints) && AllEnabled(breakpoints)
    }

    /** `Debugger::new`: one (disabled) breakpoint, at the program's entry point. */
    constructor (entryPoint: GlobalAddress, nextInstr: Usize -> Usize)
      ensures Valid() && !inProgress && mappingOffset.None? && osLog == []
      ensures breakpoints == map[Global(entryPoint) := Breakpoint(Global(entryPoint), false)]
      ensures this.nextInstr == nextInstr
    {
      breakpoints := map[Global(entryPoint) := Breakpoint(Global(entryPoint), false)];
      inProgress := false;
      mappingOffset := None;
      pc := RelocatedAddress(0);
      osLog := [];
      this.nextInstr := nextInstr;
    }

    /**
     * `set_breakpoint`: a new breakpoint at `addr`, written at once if the
     * debuggee runs, replacing any breakpoint there.
     */
    method SetBreakpoint(addr: PCValue)
      requires Valid()
      modifies this
      ensures Valid()
      ensures breakpoints == old(breakpoints)[addr := Breakpoint(addr, inProgress)]
      ensures osLog == old(osLog) + (if inProgress then [Enable(addr)] else [])
      ensures inProgress == old(inProgress) && mappingOffset == old(mappingOffset) && pc == old(pc)
      ensures old(Settled()) && addr.Relocated? ==> Settled()
    {
      var brkpt := Breakpoint(addr, false);
      if inProgress {
        brkpt := brkpt.(enabled := true);
        osLog := osLog + [Enable(addr)];
      }
      breakpoints := breakpoints[addr := brkpt];
    }

    /** `remove_breakpoint`: forget the breakpoint at `addr`, clearing it if it was written. */
    method RemoveBreakpoint(addr: PCValue)
      requires Valid()
      modifies this
      ensures Valid()
      ensures breakpoints == old(breakpoints) - {addr}
      ensures osLog == old(osLog) + (if addr in old(breakpoints) && old(breakpoints)[addr].enabled then [Disable(addr)] else [])
      ensures inProgress == old(inProgress) && mappingOffset == old(mappingOffset) && pc == old(pc)
      ensures old(Settled()) ==> Settled()
    {
      if addr in breakpoints {
        var brkpt := breakpoints[addr];
        breakpoints := breakpoints - {addr};
        if brkpt.enabled {
          osLog := osLog + [Disable(addr)];
        }
      }
    }

    /** `ControlFlow::thread_step`: execute one instruction. */
    method ThreadStep()
      modifies this
      ensures pc == RelocatedAddress(nextInstr(old(pc).value)) && osLog == old(osLog) + [SingleStep(old(pc))]
      ensures breakpoints == old(breakpoints) && inProgress == old(inProgress) && mappingOffset == old(mappingOffset)
    {
      osLog := osLog + [SingleStep(pc)];
      pc := RelocatedAddress(nextInstr(pc.value));
    }

    /**
     * `step_over_breakpoint`: at a written breakpoint, clear it, step one
     * instruction and write it again; elsewhere do nothing.
     */
    method StepOverBreakpoint()
      requires Valid()
      modifies this
      ensures Valid()
      ensures breakpoints == old(breakpoints) && inProgress == old(inProgress) && mappingOffset == old(mappingOffset)
      ensures osLog == old(osLog) + StepOverOps(old(breakpoints), old(pc))
      ensures pc == PcAfterStepOver(old(breakpoints), old(pc), nextInstr)
    {
      var k := Relocated(pc);
      if k in breakpoints && breakpoints[k].enabled {
        var brkpt := breakpoints[k];
        breakpoints := breakpoints[k := brkpt.(enabled := false)];
        osLog := osLog + [Disable(k)];
        ThreadStep();
        breakpoints := breakpoints[k := brkpt];
        osLog := osLog + [Enable(k)];
      }
    }

    /**
     * The first loop of the `DebugeeStart` arm: take every file-address
     * entry out of the table, keyed by its file address.
     */
    method TakeGlobals() returns (toReloc: map<GlobalAddress, Breakpoint>)
      modifies this
      ensures breakpoints == map k | k in old(breakpoints) && k.Relocated? :: old(breakpoints)[k]
      ensures forall a :: a in toReloc <==> Global(a) in old(breakpoints)
      ensures forall a :: a in toReloc ==> toReloc[a] == old(breakpoints)[Global(a)]
      ensures osLog == old(osLog) && pc == old(pc) && inProgress == old(inProgress) && mappingOffset == old(mappingOffset)
    {
      var keys := breakpoints.Keys;
      toReloc := map[];
      while keys != {}
        invariant keys <= old(breakpoints).Keys
        invariant forall k :: k in breakpoints <==> k in old(breakpoints) && (k.Relocated? || k in keys)
        invariant forall k :: k in breakpoints ==> breakpoints[k] == old(breakpoints)[k]
        invariant forall a :: a in toReloc <==> Global(a) in old(breakpoints) && Global(a) !in keys
        invariant forall a :: a in toReloc ==> toReloc[a] == old(breakpoints)[Global(a)]
        invariant osLog == old(osLog) && pc == old(pc) && inProgress == old(inProgress) && mappingOffset == old(mappingOffset)
        decreases keys
      {
        var k :| k in keys;
        if k.Global? {
          toReloc := toReloc[k.global := breakpoints[k]];
          breakpoints := breakpoints - {k};
        }
        keys := keys - {k};
      }
    }

    /**
     * The second loop of the `DebugeeStart` arm: put every taken entry back
     * at its relocated address, with that address as its own.
     */
    method PutRelocated(toReloc: map<GlobalAddress, Breakpoint>, offset: Usize)
      modifies this
      ensures forall k :: k in breakpoints <==>
                k in old(breakpoints) || (k.Relocated? && IntoGlobal(k.relocated, offset) in toReloc)
      ensures forall k :: k in breakpoints ==>
                breakpoints[k] == if k.Relocated? && IntoGlobal(k.relocated, offset) in toReloc
                                  then toReloc[IntoGlobal(k.relocated, offset)].(addr := k)
                                  else old(breakpoints)[k]
      ensures osLog == old(osLog) && pc == old(pc) && inProgress == old(inProgress) && mappingOffset == old(mappingOffset)
    {
      var pending := toReloc.Keys;
      while pending != {}
        invariant pending <= toReloc.Keys
        invariant forall k :: k in breakpoints <==>
                    k in old(breakpoints)
                    || (k.Relocated? && IntoGlobal(k.relocated, offset) in toReloc && IntoGlobal(k.relocated, offset) !in pending)
        invariant forall k :: k in breakpoints ==>
                    breakpoints[k] == if k.Relocated? && IntoGlobal(k.relocated, offset) in toReloc
                                         && IntoGlobal(k.relocated, offset) !in pending
                                      then toReloc[IntoGlobal(k.relocated, offset)].(addr := k)
                                      else old(breakpoints)[k]
        invariant osLog == old(osLog) && pc == old(pc) && inProgress == old(inProgress) && mappingOffset == old(mappingOffset)
        decreases pending
      {
        var a :| a in pending;
        var k := Relocated(Relocate(a, offset));
        IntoGlobalAfterRelocate(a, offset);
        breakpoints := breakpoints[k := toReloc[a].(addr := k)];
        pending := pending - {a};
      }
    }

    /** The last step of the `DebugeeStart` arm: write every breakpoint. */
    method EnableEvery()
      modifies this
      ensures breakpoints == EnableAll(old(breakpoints))
      ensures |osLog| >= |old(osLog)| && osLog[..|old(osLog)|] == old(osLog)
      ensures forall op :: op in osLog[|old(osLog)|..] <==> op.Enable? && op.at in breakpoints
      ensures |osLog| == |old(osLog)| + |breakpoints.Keys|
      ensures pc == old(pc) && inProgress == old(inProgress) && mappingOffset == old(mappingOffset)
    {
      var rest := breakpoints.Keys;
      ghost var start := |osLog|;
      EnablingStarts(breakpoints);
      while rest != {}
        invariant |osLog| >= start && osLog[..start] == old(osLog)
        invariant Enabling(old(breakpoints), breakpoints, rest, osLog[start..])
        invariant pc == old(pc) && inProgress == old(inProgress) && mappingOffset == old(mappingOffset)
        decreases rest
      {
        var k :| k in rest;
        ghost var written := osLog[start..];
        EnablingStep(old(breakpoints), breakpoints, rest, written, k);
        breakpoints := breakpoints[k := breakpoints[k].(enabled := true)];
        osLog := osLog + [Enable(k)];
        assert osLog[start..] == written + [Enable(k)];
        rest := rest - {k};
      }
      EnablingDone(old(breakpoints), breakpoints, osLog[start..]);
    }

    /**
     * The `DebugeeStart` arm of `continue_execution` (the debuggee has been
     * mapped at `offset`): relocate the file-address breakpoints, then
     * write every breakpoint.
     */
    method HandleStart(offset: Usize)
      requires Valid()
      modifies this
      ensures Valid() && inProgress && mappingOffset == Some(offset) && pc == old(pc)
      ensures breakpoints == EnableAll(RelocateTable(old(breakpoints), offset))
      ensures AllRelocated(breakpoints) && AllEnabled(breakpoints)
      ensures |osLog| >= |old(osLog)| && osLog[..|old(osLog)|] == old(osLog)
      ensures WritesEvery(osLog[|old(osLog)|..], breakpoints)
    {
      ghost var t := breakpoints;
      inProgress := true;
      mappingOffset := Some(offset);
      var toReloc := TakeGlobals();
      PutRelocated(toReloc, offset);
      ghost var moved := breakpoints;
      forall k | k in moved
        ensures k in RelocateTable(t, offset) && moved[k] == RelocateTable(t, offset)[k]
      {
        if k.Relocated? && IntoGlobal(k.relocated, offset) in toReloc {
          RelocateAfterIntoGlobal(k.relocated, offset);
          assert k in RelocatedKeys(t, offset);
        }
      }
      forall k | k in RelocateTable(t, offset)
        ensures k in moved
      {
        RelocateTableKeysFromOld(t, offset, k);
      }
      assert moved == RelocateTable(t, offset);
      RelocateTableKeyedByAddress(t, offset);
      EnableEvery();
    }

    /**
     * `continue_execution`: step over a breakpoint at the current address,
     * then handle the debuggee's events until one of them stops the run.
     * `events` are the events the debuggee reports, in order.
     */
    method ContinueExecution(events: seq<DebugeeEvent>)
      requires Valid()
      modifies this
      ensures Valid()
      ensures breakpoints == TableAfter(old(breakpoints), events)
      ensures inProgress == (old(inProgress) || StartsBeforeStop(events))
      ensures old(Settled()) || StartsBeforeStop(events) ==> Settled()
      ensures mappingOffset == OffsetAfter(old(mappingOffset), events)
      ensures pc == PcAfter(old(breakpoints), PcAfterStepOver(old(breakpoints), old(pc), nextInstr), events, nextInstr)
      ensures |osLog| >= |old(osLog)| && osLog[..|old(osLog)|] == old(osLog)
      ensures RunLog(old(breakpoints), old(pc), events, osLog[|old(osLog)|..], nextInstr)
    {
      ghost var t := breakpoints;
      ghost var wasRunning := inProgress;
      ghost var start := |osLog|;
      StepOverBreakpoint();
      ghost var pc1 := pc;
      forall log | LogAfter(t, events, log, nextInstr)
        ensures RunLog(t, old(pc), events, osLog[start..] + log, nextInstr)
      {
        assert osLog[start..] == StepOverOps(t, old(pc));
        RunLogOf(t, old(pc), events, log, nextInstr);
      }
      assert Resumes(t, old(pc), events, t, events, osLog[start..], nextInstr);
      var i := 0;
      while i < |events|
        invariant 0 <= i <= |events| && Valid()
        invariant TableAfter(breakpoints, events[i..]) == TableAfter(t, events)
        invariant (wasRunning || StartsBeforeStop(events)) == (inProgress || StartsBeforeStop(events[i..]))
        invariant old(Settled()) || StartsBeforeStop(events) ==> Settled() || StartsBeforeStop(events[i..])
        invariant OffsetAfter(mappingOffset, events[i..]) == OffsetAfter(old(mappingOffset), events)
        invariant PcAfter(breakpoints, pc, events[i..], nextInstr) == PcAfter(t, pc1, events, nextInstr)
        invariant start <= |osLog| && osLog[..start] == old(osLog)
        invariant Resumes(t, old(pc), events, breakpoints, events[i..], osLog[start..], nextInstr)
      {
        assert events[i..] == [events[i]] + events[i + 1..];
        if !KeepsRunning(events[i]) {
          StopsHere(breakpoints, mappingOffset, pc, events[i..], nextInstr);
          if events[i].BreakpointHit? {
            pc := events[i].pc;
          }
          break;
        }
        ghost var before := osLog;
        ghost var table := breakpoints;
        KeepRunning(events[i], events[i + 1..]);
        ResumesAfter(t, old(pc), events, table, breakpoints, events[i..], events[i + 1..],
                     before[start..], osLog[|before|..], nextInstr);
        assert before[start..] + osLog[|before|..] == osLog[start..];
        i := i + 1;
      }
      assert osLog[start..] + [] == osLog[start..];
    }

    /**
     * The arms of `continue_execution` after which it waits for the next
     * event: a start relocates and writes the breakpoints, an entry point
     * steps over a breakpoint there. `rest` are the events that follow.
     */
    method KeepRunning(e: DebugeeEvent, ghost rest: seq<DebugeeEvent>)
      requires Valid() && KeepsRunning(e)
      modifies this
      ensures Valid()
      ensures TableAfter(breakpoints, rest) == TableAfter(old(breakpoints), [e] + rest)
      ensures inProgress == (old(inProgress) || e.DebugeeStart?)
      ensures e.DebugeeStart? ==> Settled()
      ensures old(Settled()) ==> Settled()
      ensures OffsetAfter(mappingOffset, rest) == OffsetAfter(old(mappingOffset), [e] + rest)
      ensures PcAfter(breakpoints, pc, rest, nextInstr) == PcAfter(old(breakpoints), old(pc), [e] + rest, nextInstr)
      ensures |osLog| >= |old(osLog)| && osLog[..|old(osLog)|] == old(osLog)
      ensures Leads(old(breakpoints), [e] + rest, breakpoints, rest, osLog[|old(osLog)|..], nextInstr)
    {
      assert ([e] + rest)[1..] == rest;
      match e {
        case DebugeeStart(offset) =>
          HandleStart(offset);
          forall log | LogAfter(breakpoints, rest, log, nextInstr)
            ensures LogAfter(old(breakpoints), [e] + rest, osLog[|old(osLog)|..] + log, nextInstr)
          {
            LogAfterStart(old(breakpoints), [e] + rest, osLog[|old(osLog)|..], log, nextInstr);
          }
        case AtEntryPoint(at) =>
          pc := at;
          StepOverBreakpoint();
          forall log | LogAfter(breakpoints, rest, log, nextInstr)
            ensures LogAfter(old(breakpoints), [e] + rest, osLog[|old(osLog)|..] + log, nextInstr)
          {
            LogAfterEntry(old(breakpoints), [e] + rest, log, nextInstr);
          }
      }
    }
  
    /** `try_for_each(set_breakpoint)` over addresses that have no breakpoint yet. */
    method SetTemporaries(xs: seq<RelocatedAddress>)
      requires Valid() && inProgress
      requires forall x :: x in xs ==> Relocated(x) !in breakpoints
      modifies this
      ensures Valid() && inProgress && mappingOffset == old(mappingOffset)
      ensures ExtendsWith(breakpoints, old(breakpoints), xs)
      ensures forall x :: x in xs ==> Relocated(x) in breakpoints
      ensures old(Settled()) ==> Settled()
      ensures breakpoints == WithTemporaries(old(breakpoints), xs)
      ensures osLog == old(osLog) + EnableOps(xs) && pc == old(pc)
    {
      var i := 0;
      while i < |xs|
        invariant 0 <= i <= |xs| && Valid() && inProgress && mappingOffset == old(mappingOffset)
        invariant old(Settled()) ==> Settled()
        invariant breakpoints == WithTemporaries(old(breakpoints), xs[..i])
        invariant osLog == old(osLog) + EnableOps(xs[..i]) && pc == old(pc)
      {
        SetBreakpoint(Relocated(xs[i]));
        assert xs[..i + 1] == xs[..i] + [xs[i]];
        WithTemporariesSnoc(old(breakpoints), xs[..i], xs[i]);
        i := i + 1;
      }
      assert xs[..i] == xs;
      WithTemporariesExtend(old(breakpoints), xs);
    }

    /**
     * `try_for_each(remove_breakpoint)` over the temporary addresses: when
     * the table is `base` plus entries at those addresses only, `base` is
     * left.
     */
    method RemoveTemporaries(xs: seq<RelocatedAddress>, ghost base: Table)
      requires Valid()
      modifies this
      ensures Valid() && inProgress == old(inProgress) && mappingOffset == old(mappingOffset)
      ensures (forall x :: x in xs ==> Relocated(x) !in base) && ExtendsWith(old(breakpoints), base, xs) ==>
                breakpoints == base
      ensures forall k :: k in breakpoints <==> k in old(breakpoints) && forall x :: x in xs ==> k != Relocated(x)
      ensures old(Settled()) ==> Settled()
      ensures breakpoints == old(breakpoints) - TemporaryKeys(xs)
      ensures osLog == old(osLog) + DisableOps(old(breakpoints), xs) && pc == old(pc)
    {
      var j := 0;
      while j < |xs|
        invariant 0 <= j <= |xs| && Valid() && inProgress == old(inProgress) && mappingOffset == old(mappingOffset)
        invariant old(Settled()) ==> Settled()
        invariant Removing(old(breakpoints), old(osLog), xs, j, breakpoints, osLog) && pc == old(pc)
      {
        RemovingStep(old(breakpoints), old(osLog), xs, j, breakpoints, osLog);
        RemoveBreakpoint(Relocated(xs[j]));
        j := j + 1;
      }
      RemovingDone(old(breakpoints), old(osLog), xs, breakpoints, osLog);
      RemovingTemporaries(old(breakpoints), base, xs);
    }

    /**
     * The nested loop of `step_over`: the statement rows of each range,
     * other than the current line's, that have no breakpoint yet, relocated.
     */
    method CollectStepTargets(ranges: seq<FunctionRange>, current: GlobalAddress, offset: Usize)
      returns (targets: Option<seq<RelocatedAddress>>)
      ensures targets == StepTargets(ranges, current, offset, breakpoints)
    {
      var acc: seq<RelocatedAddress> := [];
      var i := 0;
      assert ranges[0..] == ranges;
      assert StepTargets(ranges, current, offset, breakpoints).Some? ==>
               [] + StepTargets(ranges, current, offset, breakpoints).value == StepTargets(ranges, current, offset, breakpoints).value;
      while i < |ranges|
        invariant 0 <= i <= |ranges|
        invariant Prepend(acc, StepTargets(ranges[i..], current, offset, breakpoints))
                  == StepTargets(ranges, current, offset, breakpoints)
      {
        assert ranges[i..][1..] == ranges[i + 1..];
        if ranges[i].walk.None? {
          return None;
        }
        var here := WalkRange(ranges[i].walk.value, ranges[i].end, current, offset);
        ghost var rest := StepTargets(ranges[i + 1..], current, offset, breakpoints);
        assert StepTargets(ranges[i..], current, offset, breakpoints) == Prepend(here, rest);
        assert rest.Some? ==> acc + (here + rest.value) == (acc + here) + rest.value;
        acc := acc + here;
        i := i + 1;
      }
      assert acc + [] == acc;
      return Some(acc);
    }

    /**
     * The inner loop of `step_over`: walk the line rows of one range up to
     * its end, keeping the statement rows that are not the current line and
     * have no breakpoint yet, relocated.
     */
    method WalkRange(rows: seq<LineRow>, end: Usize, current: GlobalAddress, offset: Usize)
      returns (found: seq<RelocatedAddress>)
      ensures found == RangeTargets(rows, end, current, offset, breakpoints)
    {
      found := [];
      var j := 0;
      assert rows[0..] == rows;
      while j < |rows| && rows[j].address.value < end
        invariant 0 <= j <= |rows|
        invariant found + RangeTargets(rows[j..], end, current, offset, breakpoints)
                  == RangeTargets(rows, end, current, offset, breakpoints)
      {
        assert rows[j..][1..] == rows[j + 1..];
        if rows[j].isStmt {
          var loadAddr := Relocate(rows[j].address, offset);
          if rows[j].address != current && Relocated(loadAddr) !in breakpoints {
            found := found + [loadAddr];
          }
        }
        j := j + 1;
      }
      assert RangeTargets(rows[j..], end, current, offset, breakpoints) == [];
      assert found + [] == found;
    }

    /**
     * The common tail of `step_out` and `step_over`: with the temporaries
     * `temps` set on top of table `t` (their writes being the log since
     * `start`), `continue_execution`, then `remove_breakpoint` each of them.
     */
    method RunThenRemove(temps: seq<RelocatedAddress>, ghost t: Table, ghost start: nat, events: seq<DebugeeEvent>)
      requires Valid() && inProgress
      requires breakpoints == WithTemporaries(t, temps) && forall x :: x in temps ==> Relocated(x) !in t
      requires start <= |osLog| && osLog[start..] == EnableOps(temps)
      modifies this
      ensures Valid() && inProgress
      ensures breakpoints == TableAfter(old(breakpoints), events) - TemporaryKeys(temps)
      ensures old(Settled()) ==> Settled() && breakpoints == t
      ensures mappingOffset == OffsetAfter(old(mappingOffset), events)
      ensures pc == PcAfter(old(breakpoints), PcAfterStepOver(old(breakpoints), old(pc), nextInstr), events, nextInstr)
      ensures start <= |osLog| && osLog[..start] == old(osLog)[..start]
      ensures StepLog(t, old(pc), temps, events, osLog[start..], nextInstr)
    {
      ContinueExecution(events);
      if old(Settled()) {
        TableAfterSettled(old(breakpoints), events);
        TemporariesLeaveNoTrace(t, temps);
      }
      ghost var run := osLog[|old(osLog)|..];
      assert osLog == old(osLog) + run;
      RemoveTemporaries(temps, t);
      StepLogAround(t, old(pc), temps, events, old(osLog), start, run, osLog, nextInstr);
    }

    /**
     * `step_out`: run to the return address, through a temporary breakpoint
     * there unless one is already set, removed once the run stops.
     * `retAddr` is the return address the unwinder finds, if any.
     */
    method StepOut(retAddr: Option<RelocatedAddress>, events: seq<DebugeeEvent>) returns (outcome: Outcome)
      requires Valid()
      modifies this
      ensures Valid()
      ensures outcome == if old(inProgress) then Done else NotStarted
      ensures !old(inProgress) || retAddr.None? ==>
                breakpoints == old(breakpoints) && osLog == old(osLog) && pc == old(pc) && mappingOffset == old(mappingOffset)
      ensures old(Settled()) ==> Settled() && breakpoints == old(breakpoints)
      ensures inProgress == old(inProgress)
      ensures old(inProgress) && retAddr.Some? ==>
                var temps := Temporaries([], retAddr, old(breakpoints));
                var t0 := WithTemporaries(old(breakpoints), temps);
                && breakpoints == TableAfter(t0, events) - TemporaryKeys(temps)
                && mappingOffset == OffsetAfter(old(mappingOffset), events)
                && pc == PcAfter(t0, PcAfterStepOver(t0, old(pc), nextInstr), events, nextInstr)
                && |osLog| >= |old(osLog)| && osLog[..|old(osLog)|] == old(osLog)
                && StepLog(old(breakpoints), old(pc), temps, events, osLog[|old(osLog)|..], nextInstr)
    {
      if !inProgress {
        return NotStarted;
      }
      if retAddr.Some? {
        var k := Relocated(retAddr.value);
        ghost var start := |osLog|;
        ghost var temps := Temporaries([], retAddr, old(breakpoints));
        if k in breakpoints {
          assert temps == [];
          RunThenRemove([], old(breakpoints), start, events);
        } else {
          assert temps == [retAddr.value];
          SetBreakpoint(k);
          assert WithTemporaries(old(breakpoints), temps) == breakpoints;
          RunThenRemove([retAddr.value], old(breakpoints), start, events);
          assert TemporaryKeys(temps) == {k};
        }
        assert StepLog(old(breakpoints), old(pc), temps, events, osLog[start..], nextInstr);
      }
      return Done;
    }

    /**
     * `step_over`: set temporary breakpoints at the function's other
     * statement rows and at the return address, run, then remove exactly
     * the temporary ones. `func` holds the ranges of the function around
     * the current address and `currentLine` the current line's address, as
     * the debug information gives them.
     */
    method StepOver(func: Option<seq<FunctionRange>>, currentLine: Option<GlobalAddress>,
                    retAddr: Option<RelocatedAddress>, events: seq<DebugeeEvent>) returns (outcome: Outcome)
      requires Valid()
      modifies this
      ensures Valid()
      ensures outcome ==
                if !old(inProgress) then NotStarted
                else if func.None? then NotInDebugFrame
                else if currentLine.None? then CurrentLineNotFound
                else if StepTargets(func.value, currentLine.value, old(mappingOffset).value, old(breakpoints)).None?
                then UnknownFunctionRange
                else Done
      ensures outcome != Done ==>
                breakpoints == old(breakpoints) && osLog == old(osLog) && pc == old(pc) && mappingOffset == old(mappingOffset)
      ensures old(Settled()) ==> Settled() && breakpoints == old(breakpoints)
      ensures inProgress == old(inProgress)
      ensures outcome == Done ==>
                var targets := StepTargets(func.value, currentLine.value, old(mappingOffset).value, old(breakpoints)).value;
                var temps := Temporaries(targets, retAddr, old(breakpoints));
                var t0 := WithTemporaries(old(breakpoints), temps);
                && breakpoints == TableAfter(t0, events) - TemporaryKeys(temps)
                && mappingOffset == OffsetAfter(old(mappingOffset), events)
                && pc == PcAfter(t0, PcAfterStepOver(t0, old(pc), nextInstr), events, nextInstr)
                && |osLog| >= |old(osLog)| && osLog[..|old(osLog)|] == old(osLog)
                && StepLog(old(breakpoints), old(pc), temps, events, osLog[|old(osLog)|..], nextInstr)
    {
      if !inProgress {
        return NotStarted;
      }
      if func.None? {
        return NotInDebugFrame;
      }
      if currentLine.None? {
        return CurrentLineNotFound;
      }
      var targets := CollectStepTargets(func.value, currentLine.value, mappingOffset.value);
      if targets.None? {
        return UnknownFunctionRange;
      }
      RunWithTemporaries(targets.value, retAddr, events);
      return Done;
    }

    /**
     * The second half of `step_over`: set the temporaries at `targets`, and
     * at the return address unless a breakpoint is now there, run, then
     * remove exactly those.
     */
    method RunWithTemporaries(targets: seq<RelocatedAddress>, retAddr: Option<RelocatedAddress>, events: seq<DebugeeEvent>)
      requires Valid() && inProgress
      requires forall x :: x in targets ==> Relocated(x) !in breakpoints
      modifies this
      ensures Valid() && inProgress
      ensures old(Settled()) ==> Settled() && breakpoints == old(breakpoints)
      ensures var temps := Temporaries(targets, retAddr, old(breakpoints));
              var t0 := WithTemporaries(old(breakpoints), temps);
              && breakpoints == TableAfter(t0, events) - TemporaryKeys(temps)
              && mappingOffset == OffsetAfter(old(mappingOffset), events)
              && pc == PcAfter(t0, PcAfterStepOver(t0, old(pc), nextInstr), events, nextInstr)
              && |osLog| >= |old(osLog)| && osLog[..|old(osLog)|] == old(osLog)
              && StepLog(old(breakpoints), old(pc), temps, events, osLog[|old(osLog)|..], nextInstr)
    {
      var toDelete := targets;
      ghost var start := |osLog|;
      ghost var temps := Temporaries(toDelete, retAddr, old(breakpoints));
      SetTemporaries(toDelete);
      if retAddr.Some? {
        WithTemporariesAt(old(breakpoints), toDelete, Relocated(retAddr.value));
        assert Relocated(retAddr.value) in TemporaryKeys(toDelete) <==> retAddr.value in toDelete;
      }
      if retAddr.Some? && Relocated(retAddr.value) !in breakpoints {
        WithTemporariesSnoc(old(breakpoints), toDelete, retAddr.value);
        SetBreakpoint(Relocated(retAddr.value));
        toDelete := toDelete + [retAddr.value];
      } else {
        assert toDelete + [] == toDelete;
      }
      assert toDelete == temps;
      RunThenRemove(toDelete, old(breakpoints), start, events);
    }
}
}
