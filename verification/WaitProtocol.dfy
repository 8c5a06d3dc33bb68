/** The wait protocol over whole runs of spawn, exit, wait, blocking, other calls and scheduling. */
module WaitProtocol {
  import opened Procs

  /** What happened so far: the exit code of every process that ended, and whom each slot last waited for. */
  datatype History = History(exits: map<nat, nat>, waits: map<nat, nat>)

  datatype Event =
    | Spawn(fds: seq<Fd>)
    | ExitWith(code: nat)
    | PageFault
    | WaitFor(pid: nat)
    | BlockOnStdin
    | BlockOnPipe(pipe: nat)
    | Own(cwd: nat, fds: seq<Fd>)  // the running process changes its directory or its descriptors
    | Switch(env: Env)

  const U32: nat := 0x1_0000_0000

  /** A syscall comes from a running process other than idle; pids have not run out. */
  predicate Running(st: State) {
    0 < st.cur < |st.procs| && st.procs[st.cur].status == Runnable && st.nextPid + 1 < U32
  }

  /** One event; `None` is a panic (full table) or an event that cannot happen in this state. */
  function Step(st: State, h: History, ev: Event): (r: Option<(State, History)>) {
    if ev.Switch? then
      if !Idle(st) || st.cur >= |st.procs| then None
      else
        match Schedule(st, ev.env)
        case None => None
        case Some(st') => Some((st', h))
    else if !Running(st) then None
    else
      var me := st.procs[st.cur];
      match ev
      case Spawn(fds) =>
        (match Exec(st, me.pid, st.cur, me.cwd, fds)
         case None => None
         case Some(st') => Some((st', h)))
      case ExitWith(code) => Some((Exit(st, code), h.(exits := h.exits[me.pid := code])))
      case PageFault => Some((Exit(st, FAULT_EXIT_CODE), h.(exits := h.exits[me.pid := FAULT_EXIT_CODE])))
      case WaitFor(pid) =>
        if CanWait(st, pid) then Some((Wait(st, pid), h.(waits := h.waits[st.cur := pid]))) else Some((st, h))
      case BlockOnStdin => Some((SetCur(st, me.(status := WaitingOnStdin)), h))
      case BlockOnPipe(pipe) => Some((SetCur(st, me.(status := WaitingOnPipe, waitingOn := pipe)), h))
      case Own(cwd, fds) => Some((SetCur(st, me.(cwd := cwd, fds := fds)), h))
  }

  function Run(st: State, h: History, events: seq<Event>): (r: Option<(State, History)>)
    decreases |events|
  {
    if events == [] then Some((st, h))
    else
      match Step(st, h, events[0])
      case None => None
      case Some((st', h')) => Run(st', h', events[1..])
  }

  // -------------------------------------------------------------- invariant

  /** A slot that was never used carries pid 0; so does only idle among the used ones. */
  ghost predicate PidsOk(st: State) {
    && |st.procs| == MAX_PROCS && st.cur < MAX_PROCS && st.nextPid > 0
    && st.procs[0].pid == 0 && st.procs[0].parentPid == 0 && st.procs[0].status == Runnable
    && (forall i :: 0 <= i < MAX_PROCS ==> st.procs[i].pid < st.nextPid && st.procs[i].parentPid < st.nextPid)
    && (forall i :: 0 < i < MAX_PROCS && st.procs[i].pid == 0 ==> st.procs[i].status == Unused)
    && (forall i, j :: 0 <= i < j < MAX_PROCS && st.procs[i].pid == st.procs[j].pid ==> st.procs[i].pid == 0)
  }

  /** The slot of a child of a living process names the parent's slot and is not free. */
  ghost predicate ChildKept(st: State, c: nat, p: nat)
    requires |st.procs| == MAX_PROCS && c < MAX_PROCS && p < MAX_PROCS
  {
    ProcAlive(st.procs[p].status) && st.procs[c].parentPid == st.procs[p].pid && st.procs[c].pid != 0 ==>
      st.procs[c].parentIdx == p && st.procs[c].status != Unused
  }

  ghost predicate ChildrenKept(st: State)
    requires |st.procs| == MAX_PROCS
  {
    forall c, p :: 0 <= c < MAX_PROCS && 0 <= p < MAX_PROCS ==> ChildKept(st, c, p)
  }

  /** A waiting process names a slot that holds its own child, the one it asked for. */
  ghost predicate WaitOk(st: State, h: History, p: nat)
    requires |st.procs| == MAX_PROCS && p < MAX_PROCS
  {
    st.procs[p].status == WaitingOnPid ==>
      var w := st.procs[p].waitingOn;
      && w < MAX_PROCS && st.procs[w].pid != 0 && st.procs[w].parentPid == st.procs[p].pid
      && p in h.waits && h.waits[p] == st.procs[w].pid
  }

  /** A killed process keeps its exit code. */
  ghost predicate ExitOk(st: State, h: History, i: nat)
    requires |st.procs| == MAX_PROCS && i < MAX_PROCS
  {
    st.procs[i].status == Killed ==> st.procs[i].pid in h.exits && h.exits[st.procs[i].pid] == st.procs[i].exitCode
  }

  ghost predicate Inv(st: State, h: History) {
    && PidsOk(st) && ChildrenKept(st)
    && (forall p :: 0 <= p < MAX_PROCS ==> WaitOk(st, h, p))
    && (forall i :: 0 <= i < MAX_PROCS ==> ExitOk(st, h, i))
  }

  /** The table right after boot: idle in slot 0, the shell in slot 1. */
  function BootProc(i: int): (p: Proc) {
    if i == 0 then Proc(0, Runnable, 0, 0, 0, 0, 0, NO_FDS)
    else if i == 1 then Proc(1, Embryo, 0, 0, 0, 0, 0, seq(MAX_FDS, k => StdFd(k)))
    else Proc(0, Unused, 0, 0, 0, 0, 0, NO_FDS)
  }

  const BOOTED: State := State(seq(MAX_PROCS, i => BootProc(i)), 0, 2, 1)
  const NOTHING_YET: History := History(map[], map[])

  lemma BootedInv()
    ensures Inv(BOOTED, NOTHING_YET)
  {
    var st := BOOTED;
    assert forall i :: 0 <= i < MAX_PROCS ==> st.procs[i] == BootProc(i);
    assert PidsOk(st);
    forall c, p | 0 <= c < MAX_PROCS && 0 <= p < MAX_PROCS
      ensures ChildKept(st, c, p)
    {
      assert st.procs[c] == BootProc(c) && st.procs[p] == BootProc(p);
    }
  }

  lemma ExecKeeps(st: State, h: History, parentPid: nat, parentIdx: nat, cwd: nat, fds: seq<Fd>)
    requires Inv(st, h)
    requires parentIdx < MAX_PROCS && st.procs[parentIdx].pid == parentPid && ProcAlive(st.procs[parentIdx].status)
    requires parentIdx != 0 ==> parentPid != 0
    ensures var r := Exec(st, parentPid, parentIdx, cwd, fds);
            r.Some? ==> Inv(r.value, h) && r.value.cur == st.cur && r.value.nextPid == st.nextPid + 1
  {
    var n := FirstUnused(st.procs, 0);
    if n < MAX_PROCS {
      var r := Exec(st, parentPid, parentIdx, cwd, fds).value;
      forall c, p | 0 <= c < MAX_PROCS && 0 <= p < MAX_PROCS
        ensures ChildKept(r, c, p)
      {
        assert ChildKept(st, c, p);
      }
      forall p | 0 <= p < MAX_PROCS
        ensures WaitOk(r, h, p)
      {
        assert WaitOk(st, h, p);
        if p != n && st.procs[p].status == WaitingOnPid {
          assert ChildKept(st, st.procs[p].waitingOn, p);
        }
      }
      forall i | 0 <= i < MAX_PROCS
        ensures ExitOk(r, h, i)
      {
        assert ExitOk(st, h, i);
      }
    }
  }

  /** Changes of one slot that leave its identity alone and do not revive it. */
  lemma SlotChangeKeeps(st: State, h: History, st': State, h': History, i: nat)
    requires Inv(st, h) && i < MAX_PROCS
    requires |st'.procs| == MAX_PROCS && st' == st.(cur := st'.cur, procs := st'.procs) && st'.cur < MAX_PROCS
    requires st'.procs == st.procs[i := st'.procs[i]]
    requires st'.procs[i].pid == st.procs[i].pid && st'.procs[i].parentPid == st.procs[i].parentPid
    requires st'.procs[i].parentIdx == st.procs[i].parentIdx
    requires ProcAlive(st'.procs[i].status) ==> ProcAlive(st.procs[i].status)
    requires st'.procs[i].status != Unused && st.procs[i].status != Unused
    requires i == 0 ==> st'.procs[0].status == Runnable
    requires WaitOk(st', h', i) && ExitOk(st', h', i)
    requires forall p :: p != i && p in h.waits ==> p in h'.waits && h'.waits[p] == h.waits[p]
    requires forall q :: q != st.procs[i].pid && q in h.exits ==> q in h'.exits && h'.exits[q] == h.exits[q]
    ensures Inv(st', h')
  {
    forall c, p | 0 <= c < MAX_PROCS && 0 <= p < MAX_PROCS
      ensures ChildKept(st', c, p)
    {
      assert ChildKept(st, c, p);
    }
    forall p | 0 <= p < MAX_PROCS
      ensures WaitOk(st', h', p)
    {
      assert WaitOk(st, h, p);
    }
    forall j | 0 <= j < MAX_PROCS
      ensures ExitOk(st', h', j)
    {
      assert ExitOk(st, h, j);
    }
  }

  /** Reaping never takes a slot that somebody may still ask for. */
  lemma ReapKeeps(st: State, h: History, i: nat)
    requires Inv(st, h) && 0 < i < MAX_PROCS && st.procs[i].status == Killed
    ensures Inv(Reap(st, i), h)
  {
    var r := Reap(st, i);
    if r != st {
      forall c, p | 0 <= c < MAX_PROCS && 0 <= p < MAX_PROCS
        ensures ChildKept(r, c, p)
      {
        assert ChildKept(st, c, p);
      }
      forall p | 0 <= p < MAX_PROCS
        ensures WaitOk(r, h, p) && ExitOk(r, h, p)
      {
        assert WaitOk(st, h, p) && ExitOk(st, h, p);
      }
    }
  }

  /** A waiting process that wakes takes over the exit code of the child it asked for. */
  ghost predicate Delivered(st: State, h: History, st': State, i: nat)
    requires |st.procs| == MAX_PROCS && |st'.procs| == MAX_PROCS && i < MAX_PROCS
  {
    st.procs[i].status == WaitingOnPid ==>
      i in h.waits && h.waits[i] in h.exits && st'.procs[i].exitCode == h.exits[h.waits[i]]
  }

  lemma VisitKeeps(st: State, h: History, env: Env, i: nat)
    requires Inv(st, h) && i < MAX_PROCS
    ensures var v := VisitSlot(st, env, i);
            !v.Panic? ==>
              && Inv(v.st, h)
              && (v.Chosen? ==>
                    v.st.cur == i && Delivered(st, h, v.st, i) && v.st.procs[i].status in {Embryo, Runnable})
  {
    var p := st.procs[i];
    var v := VisitSlot(st, env, i);
    assert WaitOk(st, h, i);
    if p.status == Killed {
      if p.pid == st.shPid {
        ExecKeeps(st, h, 0, 0, 0, seq(MAX_FDS, k => StdFd(k)));
        var r := Exec(st, 0, 0, 0, seq(MAX_FDS, k => StdFd(k)));
        if r.Some? {
          var st1 := r.value.(shPid := st.nextPid);
          ShellPidFree(r.value, h, st.nextPid);
          ReapKeeps(st1, h, i);
        }
      } else {
        ReapKeeps(st, h, i);
      }
    } else if v.Chosen? {
      if p.status == WaitingOnPid {
        assert ExitOk(st, h, p.waitingOn);
      }
      SlotChangeKeeps(st, h, v.st, h, i);
    }
  }

  lemma ShellPidFree(st: State, h: History, pid: nat)
    requires Inv(st, h)
    ensures Inv(st.(shPid := pid), h)
  {
    var r := st.(shPid := pid);
    forall c, p | 0 <= c < MAX_PROCS && 0 <= p < MAX_PROCS ensures ChildKept(r, c, p) {
      assert ChildKept(st, c, p);
    }
    forall p | 0 <= p < MAX_PROCS ensures WaitOk(r, h, p) && ExitOk(r, h, p) {
      assert WaitOk(st, h, p) && ExitOk(st, h, p);
    }
  }

  /** A pass over other slots does not touch a slot that waits. */
  lemma VisitLeavesWaiting(st: State, env: Env, i: nat, q: nat)
    requires i < |st.procs| && q < |st.procs| && q != i && st.procs[q].status != Unused
    ensures var v := VisitSlot(st, env, i);
            !v.Panic? ==> |v.st.procs| == |st.procs| && v.st.procs[q] == st.procs[q]
  {
  }

  lemma {:induction false} PickKeeps(st: State, h: History, env: Env, i: nat)
    requires Inv(st, h) && i < MAX_PROCS
    ensures var r := Pick(st, env, i);
            r.Some? ==>
              && Inv(r.value, h)
              && r.value.procs[r.value.cur].status in {Embryo, Runnable}
              && Delivered(st, h, r.value, r.value.cur)
    decreases MAX_PROCS - i
  {
    var next := (i + 1) % MAX_PROCS;
    VisitKeeps(st, h, env, next);
    var v := VisitSlot(st, env, next);
    if v.Pass? {
      VisitKeepsIdle(st, env, next);
      PickKeeps(v.st, h, env, next);
      var r := Pick(v.st, env, next);
      if r.Some? && st.procs[r.value.cur].status == WaitingOnPid {
        if r.value.cur != next {
          VisitLeavesWaiting(st, env, next, r.value.cur);
        }
        assert v.st.procs[r.value.cur] == st.procs[r.value.cur];
      }
    }
  }

  lemma StepKeeps(st: State, h: History, ev: Event)
    requires Inv(st, h)
    ensures var r := Step(st, h, ev);
            r.Some? ==>
              && Inv(r.value.0, r.value.1)
              && (ev.Switch? ==> r.value.1 == h && Delivered(st, h, r.value.0, r.value.0.cur))
  {
    var r := Step(st, h, ev);
    if r.Some? {
      var me := st.procs[st.cur];
      assert WaitOk(st, h, st.cur);
      if ev.Switch? {
        PickKeeps(st, h, ev.env, st.cur);
        var picked := Pick(st, ev.env, st.cur).value;
        assert WaitOk(picked, h, picked.cur) && ExitOk(picked, h, picked.cur);
        SlotChangeKeeps(picked, h, r.value.0, h, picked.cur);
      } else if ev.Spawn? {
        ExecKeeps(st, h, me.pid, st.cur, me.cwd, ev.fds);
      } else if !ev.WaitFor? || CanWait(st, ev.pid) {
        SlotChangeKeeps(st, h, r.value.0, r.value.1, st.cur);
      }
    }
  }

  /** The invariant holds in every reachable state. */
  lemma {:induction false} RunKeeps(st: State, h: History, events: seq<Event>)
    requires Inv(st, h)
    ensures var r := Run(st, h, events);
            r.Some? ==> Inv(r.value.0, r.value.1)
    decreases |events|
  {
    if events != [] {
      StepKeeps(st, h, events[0]);
      var r := Step(st, h, events[0]);
      if r.Some? {
        RunKeeps(r.value.0, r.value.1, events[1..]);
      }
    }
  }

  /**
   * In every state a run from boot reaches: a process that waits names a slot that still holds
   * its own child; once that child is killed its slot stays killed, under the same pid, at every
   * later event until the parent wakes; and the parent wakes with exactly the child's exit code.
   */
  lemma WaitReturnsExitCode(events: seq<Event>, ev: Event, p: nat)
    requires p < MAX_PROCS && Run(BOOTED, NOTHING_YET, events).Some?
    requires var (st, h) := Run(BOOTED, NOTHING_YET, events).value;
             && Step(st, h, ev).Some? && p < |st.procs| && st.procs[p].status == WaitingOnPid
    ensures var (st, h) := Run(BOOTED, NOTHING_YET, events).value;
            var (st', h') := Step(st, h, ev).value;
            var w := st.procs[p].waitingOn;
            && Inv(st, h) && Inv(st', h')
            && w < MAX_PROCS && st.procs[w].parentPid == st.procs[p].pid && st.procs[w].parentIdx == p
            && p in h.waits && st.procs[w].pid == h.waits[p]
            && (st.procs[w].status == Killed && st'.procs[p].status == WaitingOnPid ==> st'.procs[w] == st.procs[w])
            && (st'.procs[p].status != WaitingOnPid ==>
                  && st'.cur == p && st'.procs[p].status == Runnable
                  && h.waits[p] in h.exits && st'.procs[p].exitCode == h.exits[h.waits[p]])
  {
    BootedInv();
    RunKeeps(BOOTED, NOTHING_YET, events);
    var (st, h) := Run(BOOTED, NOTHING_YET, events).value;
    StepKeeps(st, h, ev);
    var w := st.procs[p].waitingOn;
    assert WaitOk(st, h, p) && ChildKept(st, w, p);
    if ev.Switch? {
      PickTouches(st, ev.env, st.cur, p);
      if st.procs[w].status == Killed {
        PickKeepsZombie(st, h, ev.env, st.cur, w, p);
      }
    }
  }

  /** The scheduler changes a waiting process only by choosing it. */
  lemma {:induction false} PickTouches(st: State, env: Env, i: nat, q: nat)
    requires Idle(st) && i < MAX_PROCS && q < MAX_PROCS && st.procs[q].status == WaitingOnPid
    ensures var r := Pick(st, env, i);
            r.Some? ==>
              && |r.value.procs| == MAX_PROCS
              && (r.value.procs[q] == st.procs[q] || (r.value.cur == q && r.value.procs[q].status == Runnable))
              && (r.value.cur == q ==> r.value.procs[q].status == Runnable)
    decreases MAX_PROCS - i
  {
    var next := (i + 1) % MAX_PROCS;
    var v := VisitSlot(st, env, next);
    if q != next {
      VisitLeavesWaiting(st, env, next, q);
    }
    if v.Pass? {
      VisitKeepsIdle(st, env, next);
      PickTouches(v.st, env, next, q);
    }
  }

  /** A killed child of a process that waits for it is never reaped or reused. */
  lemma {:induction false} PickKeepsZombie(st: State, h: History, env: Env, i: nat, w: nat, p: nat)
    requires Inv(st, h) && i < MAX_PROCS && w < MAX_PROCS && p < MAX_PROCS
    requires st.procs[p].status == WaitingOnPid && st.procs[p].waitingOn == w && st.procs[w].status == Killed
    ensures var r := Pick(st, env, i);
            r.Some? ==> |r.value.procs| == MAX_PROCS && r.value.procs[w] == st.procs[w] && r.value.cur != w
    decreases MAX_PROCS - i
  {
    var next := (i + 1) % MAX_PROCS;
    assert WaitOk(st, h, p) && ChildKept(st, w, p);
    VisitKeeps(st, h, env, next);
    if w != next {
      VisitLeavesWaiting(st, env, next, w);
    }
    if p != next {
      VisitLeavesWaiting(st, env, next, p);
    }
    var v := VisitSlot(st, env, next);
    if v.Pass? {
      VisitKeepsIdle(st, env, next);
      PickKeepsZombie(v.st, h, env, next, w, p);
    }
  }
}
