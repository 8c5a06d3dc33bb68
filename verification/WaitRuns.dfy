/**
 * The wait protocol in whole runs of the kernel (kernel/src/syscall.c, kernel/src/proc.c): what
 * the calls do to the process table is a run of the protocol, so its law holds of them.
 */
module WaitRuns {
  import opened FsDefs
  import opened Seqs
  import opened Directories
  import opened Procs
  import opened RefCounts
  import opened Descriptors
  import opened KernelRuns
  import WaitProtocol

  /** The event of the protocol that a step amounts to; none when it left the process table alone. */
  ghost function EventOf(s: KernelState, call: Call, res: Option<SysResult>, s': KernelState)
    : (r: Option<WaitProtocol.Event>)
    requires RefOk(s) && RefOk(s') && CallOk(call)
  {
    if res.None? then None
    else
      match call
      case Switch(env) => Some(WaitProtocol.Switch(env))
      case SpawnProc(_, _, cmds) =>
        if res.value == Crash || res.value == Ret(-1) then None
        else Some(WaitProtocol.Spawn(Remapped(StdFds(), s.st.procs[s.st.cur].fds, cmds)))
      case ExitWith(code) => Some(WaitProtocol.ExitWith(code))
      case WaitFor(pid) => Some(WaitProtocol.WaitFor(pid))
      case BlockOnStdin => Some(WaitProtocol.BlockOnStdin)
      case BlockOnPipe(pipe) => Some(WaitProtocol.BlockOnPipe(pipe))
      case _ => Some(WaitProtocol.Own(s'.st.procs[s.st.cur].cwd, s'.st.procs[s.st.cur].fds))
  }

  ghost predicate PidsLeft(st: State) {
    st.nextPid + 1 < U32
  }

  lemma OwnChange(st: State, st': State)
    requires st.cur < |st.procs| && st'.cur == st.cur && |st'.procs| == |st.procs|
    requires st' == SetCur(st, st.procs[st.cur].(cwd := st'.procs[st.cur].cwd, fds := st'.procs[st.cur].fds))
    requires WaitProtocol.Running(st)
    ensures forall h :: WaitProtocol.Step(st, h, WaitProtocol.Own(st'.procs[st.cur].cwd, st'.procs[st.cur].fds))
                        == Some((st', h))
  {
  }

  /** A call that is not about processes changes at most the directory and the descriptors of its own. */
  lemma OwnStep(s: KernelState, call: Call, res: SysResult, s': KernelState)
    requires RefOk(s) && LiveState(s.st) && CallOk(call) && !call.Switch? && Did(s, call, res, s')
    requires !call.SpawnProc? && !call.ExitWith? && !call.WaitFor? && !call.BlockOnStdin? && !call.BlockOnPipe?
    ensures s'.st.cur == s.st.cur && |s'.st.procs| == |s.st.procs|
    ensures var me, me' := s.st.procs[s.st.cur], s'.st.procs[s.st.cur];
            s'.st == SetCur(s.st, me.(cwd := me'.cwd, fds := me'.fds))
  {
    hide Tally, Create, Link, DropInodes, OpenKind;
    var me := s.st.procs[s.st.cur];
    assert s.st.procs[s.st.cur := me] == s.st.procs;
  }

  lemma StepProjects(s: KernelState, call: Call, res: Option<SysResult>, s': KernelState, h: WaitProtocol.History)
    requires RefOk(s) && RefOk(s') && CallOk(call) && Step(s, call, res, s') && PidsLeft(s.st)
    ensures var e := EventOf(s, call, res, s');
            if e.None? then s'.st == s.st
            else WaitProtocol.Step(s.st, h, e.value).Some? && WaitProtocol.Step(s.st, h, e.value).value.0 == s'.st
  {
    hide Tally, Schedule, Did, Remapped;
    if res.None? || call.Switch? {
      return;
    }
    if call.SpawnProc? {
      SpawnProjects(s, call, res.value, s', h);
    } else if call.ExitWith? || call.WaitFor? || call.BlockOnStdin? || call.BlockOnPipe? {
      ProcProjects(s, call, res.value, s', h);
    } else {
      OwnStep(s, call, res.value, s');
      OwnChange(s.st, s'.st);
    }
  }

  lemma SpawnProjects(s: KernelState, call: Call, res: SysResult, s': KernelState, h: WaitProtocol.History)
    requires RefOk(s) && LiveState(s.st) && PidsLeft(s.st) && call.SpawnProc? && CallOk(call) && Did(s, call, res, s')
    ensures if res == Crash || res == Ret(-1) then s'.st == s.st
            else WaitProtocol.Step(s.st, h, WaitProtocol.Spawn(Remapped(StdFds(), s.st.procs[s.st.cur].fds, call.cmds)))
                 == Some((s'.st, h))
  {
    hide Tally, Remapped, Program;
  }

  lemma ProcProjects(s: KernelState, call: Call, res: SysResult, s': KernelState, h: WaitProtocol.History)
    requires RefOk(s) && RefOk(s') && LiveState(s.st) && PidsLeft(s.st) && CallOk(call)
    requires call.ExitWith? || call.WaitFor? || call.BlockOnStdin? || call.BlockOnPipe?
    requires Did(s, call, res, s')
    ensures var r := WaitProtocol.Step(s.st, h, EventOf(s, call, Some(res), s').value); r.Some? && r.value.0 == s'.st
  {
    hide Tally, ReleasedInodes, ReleasedPipes;
  }

  /** The events of the first `n` steps of a run. */
  ghost function EventsOf(calls: seq<Call>, results: seq<Option<SysResult>>, trace: seq<KernelState>, n: nat)
    : (r: seq<WaitProtocol.Event>)
    requires Ran(calls, results, trace) && n <= |calls|
  {
    if n == 0 then []
    else
      var e := EventOf(trace[n - 1], calls[n - 1], results[n - 1], trace[n]);
      EventsOf(calls, results, trace, n - 1) + if e.None? then [] else [e.value]
  }

  lemma RunNone(st: State, h: WaitProtocol.History)
    ensures WaitProtocol.Run(st, h, []) == Some((st, h))
  {
  }

  lemma {:induction false} RunOn(st: State, h: WaitProtocol.History, events: seq<WaitProtocol.Event>,
                                 e: WaitProtocol.Event)
    requires WaitProtocol.Run(st, h, events).Some?
    ensures var (st', h') := WaitProtocol.Run(st, h, events).value;
            WaitProtocol.Run(st, h, events + [e]) == WaitProtocol.Step(st', h', e)
    decreases |events|
  {
    hide WaitProtocol.Step;
    if events == [] {
      assert [e][1..] == [] && events + [e] == [e];
    } else {
      var (st', h') := WaitProtocol.Step(st, h, events[0]).value;
      assert (events + [e])[0] == events[0] && (events + [e])[1..] == events[1..] + [e];
      RunOn(st', h', events[1..], e);
    }
  }

  /** The process table of every state of a run from boot is where the protocol gets with the events so far. */
  lemma {:induction false} RunProjects(calls: seq<Call>, results: seq<Option<SysResult>>, trace: seq<KernelState>,
                                       n: nat)
    requires Ran(calls, results, trace) && trace[0].st == WaitProtocol.BOOTED && n <= |calls|
    requires forall k :: 0 <= k < n ==> PidsLeft(trace[k].st)
    ensures var events := EventsOf(calls, results, trace, n);
            var r := WaitProtocol.Run(WaitProtocol.BOOTED, WaitProtocol.NOTHING_YET, events);
            r.Some? && r.value.0 == trace[n].st
  {
    hide RefOk, Step, EventOf, PidsLeft, WaitProtocol.Step, WaitProtocol.Run;
    RunNone(WaitProtocol.BOOTED, WaitProtocol.NOTHING_YET);
    if n > 0 {
      RunProjects(calls, results, trace, n - 1);
      var before := EventsOf(calls, results, trace, n - 1);
      var (st, h) := WaitProtocol.Run(WaitProtocol.BOOTED, WaitProtocol.NOTHING_YET, before).value;
      StepProjects(trace[n - 1], calls[n - 1], results[n - 1], trace[n], h);
      var e := EventOf(trace[n - 1], calls[n - 1], results[n - 1], trace[n]);
      if e.Some? {
        RunOn(WaitProtocol.BOOTED, WaitProtocol.NOTHING_YET, before, e.value);
      } else {
        AppendNone(before);
      }
    }
  }

  /**
   * `wait` in the kernel.  At every step of a run from boot, a process that waits names a slot that
   * still holds its own child, the one it asked for; once killed, that child stays there until the
   * parent wakes, and then the parent has exactly the code the child ended with.
   */
  lemma WaitReturnsInKernel(calls: seq<Call>, results: seq<Option<SysResult>>, trace: seq<KernelState>, k: nat, p: nat)
    requires Ran(calls, results, trace) && trace[0].st == WaitProtocol.BOOTED && k < |calls| && p < MAX_PROCS
    requires forall j :: 0 <= j <= k ==> PidsLeft(trace[j].st)
    requires p < |trace[k].st.procs| && trace[k].st.procs[p].status == WaitingOnPid
    ensures
      var r := WaitProtocol.Run(WaitProtocol.BOOTED, WaitProtocol.NOTHING_YET, EventsOf(calls, results, trace, k));
      r.Some? && WaitHeld(trace[k].st, r.value.1, trace[k + 1].st, p)
  {
    hide RefOk, Step, EventOf, PidsLeft, EventsOf, WaitProtocol.Step, WaitProtocol.Run, WaitProtocol.Inv;
    RunProjects(calls, results, trace, k);
    var before := EventsOf(calls, results, trace, k);
    var (st, h) := WaitProtocol.Run(WaitProtocol.BOOTED, WaitProtocol.NOTHING_YET, before).value;
    StepProjects(trace[k], calls[k], results[k], trace[k + 1], h);
    var e := EventOf(trace[k], calls[k], results[k], trace[k + 1]);
    if e.Some? {
      WaitProtocol.WaitReturnsExitCode(before, e.value, p);
      Sized(trace[k]);
      Sized(trace[k + 1]);
    } else {
      WaitProtocol.BootedInv();
      WaitProtocol.RunKeeps(WaitProtocol.BOOTED, WaitProtocol.NOTHING_YET, before);
      StillWaits(st, h, p);
    }
  }

  lemma Sized(s: KernelState)
    requires RefOk(s)
    ensures |s.st.procs| == MAX_PROCS
  {
  }

  /** What the law says of one waiting process and one step. */
  ghost predicate WaitHeld(st: State, h: WaitProtocol.History, st': State, p: nat)
    requires p < |st.procs|
  {
    var w := st.procs[p].waitingOn;
    && |st.procs| == |st'.procs| == MAX_PROCS
    && w < MAX_PROCS && st.procs[w].parentPid == st.procs[p].pid && st.procs[w].parentIdx == p
    && p in h.waits && st.procs[w].pid == h.waits[p]
    && (st.procs[w].status == Killed && st'.procs[p].status == WaitingOnPid ==> st'.procs[w] == st.procs[w])
    && (st'.procs[p].status != WaitingOnPid ==>
          && st'.cur == p && st'.procs[p].status == Runnable
          && h.waits[p] in h.exits && st'.procs[p].exitCode == h.exits[h.waits[p]])
  }

  lemma StillWaits(st: State, h: WaitProtocol.History, p: nat)
    requires WaitProtocol.Inv(st, h) && p < MAX_PROCS && st.procs[p].status == WaitingOnPid
    ensures WaitHeld(st, h, st, p)
  {
    assert WaitProtocol.WaitOk(st, h, p);
    assert WaitProtocol.ChildKept(st, st.procs[p].waitingOn, p);
  }
}
