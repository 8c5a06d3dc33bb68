/**
 * Whole runs of the kernel's calls and context switches, from boot on (kernel/src/main.c,
 * kernel/src/syscall.c, kernel/src/proc.c): what each call did, and what every state keeps.
 */
module KernelRuns {
  import opened FsDefs
  import opened Paths
  import opened Directories
  import opened Namespace
  import opened Procs
  import opened RefCounts
  import opened Descriptors
  import WaitProtocol

  /** The calls of a run; a call that blocks only changes the status, and its process goes on at a later switch. */
  datatype Call =
    | Open(path: string, mode: nat)
    | Close(fd: nat)
    | CreateAt(path: string, name: string, kind: FileType)
    | LinkAt(target: string, dir: string, name: string)
    | Delete(path: string)
    | MakePipe
    | SpawnProc(path: string, isElf: bool, cmds: seq<(nat, nat)>)
    | ExitWith(code: nat)
    | Cd(path: string)
    | WaitFor(pid: nat)
    | BlockOnStdin
    | BlockOnPipe(pipe: nat)
    | Switch(env: Env)

  ghost predicate CallOk(call: Call) {
    match call
    case CreateAt(_, _, kind) => kind == File || kind == Directory
    case SpawnProc(_, _, cmds) => CmdsInRange(cmds) && DistinctTargets(cmds)
    case _ => true
  }

  /** What a path names for the running process. */
  ghost function Named(s: KernelState, path: string): (r: Resolution)
    requires RefOk(s)
  {
    Lookup(s.inodes, s.st.procs[s.st.cur].cwd, path, true)
  }

  /** What `sys_delete` did with what its path named. */
  ghost predicate DidDelete(s: KernelState, found: Resolution, res: SysResult, s': KernelState)
    requires RefOk(s) && (found.Found? ==> found.idx < NUM_INODES)
  {
    && res == DeleteResult(s.inodes, found)
    && s' == s.(inodes := s'.inodes)
    && if res == Ret(0) then exists mid :: DeletedAs(s.inodes, mid, s'.inodes, found.idx) else s' == s
  }

  datatype ProgramCheck = Runs | NoProgram | Faults

  /** The checks of `sys_spawn_proc` on what its path named: a file that starts like a program. */
  function Program(inodes: seq<Inode>, found: Resolution, isElf: bool): (r: ProgramCheck) {
    match found
    case Missing => NoProgram
    case Fault => Faults
    case Found(x) =>
      match Follow(inodes, x, 0)
      case Found(f) => if inodes[f].ftype == File && isElf then Runs else NoProgram
      case _ => Faults
  }

  /** `sys_cd`: whatever the path names becomes the directory, also a file. */
  ghost predicate DidCd(s: KernelState, found: Resolution, res: SysResult, s': KernelState)
    requires RefOk(s)
  {
    match found
    case Fault => res == Crash && s' == s
    case Missing => res == Ret(-1) && s' == s
    case Found(d) => res == Ret(0) && s' == s.(st := SetCur(s.st, s.st.procs[s.st.cur].(cwd := d)))
  }

  /** One call of the running process: its result and the whole new state. */
  ghost predicate Did(s: KernelState, call: Call, res: SysResult, s': KernelState)
    requires RefOk(s) && LiveState(s.st) && CallOk(call) && !call.Switch?
  {
    var me := s.st.procs[s.st.cur];
    match call
    case Open(path, mode) => DidOpen(s, Named(s, path), mode, res, s')
    case Close(fd) => DidClose(s, fd, res, s')
    case MakePipe => DidPipe(s, res, s')
    case SpawnProc(path, isElf, cmds) =>
      (match Program(s.inodes, Named(s, path), isElf)
       case Faults => res == Crash && s' == s
       case NoProgram => res == Ret(-1) && s' == s
       case Runs => DidSpawn(s, cmds, res, s'))
    case ExitWith(code) => res == Ret(0) && DidExit(s, code, s')
    case CreateAt(path, name, kind) =>
      (res, s'.inodes) == Create(s.inodes, me.cwd, path, name, kind) && s' == s.(inodes := s'.inodes)
    case LinkAt(target, dir, name) =>
      (res, s'.inodes) == Link(s.inodes, me.cwd, target, dir, name) && s' == s.(inodes := s'.inodes)
    case Delete(path) => DidDelete(s, Named(s, path), res, s')
    case Cd(path) => DidCd(s, Named(s, path), res, s')
    case WaitFor(pid) => res == (if CanWait(s.st, pid) then Ret(0) else Ret(-1)) && s' == s.(st := Wait(s.st, pid))
    case BlockOnStdin => res == Ret(0) && s' == s.(st := SetCur(s.st, me.(status := WaitingOnStdin)))
    case BlockOnPipe(pipe) =>
      res == Ret(0) && s' == s.(st := SetCur(s.st, me.(status := WaitingOnPipe, waitingOn := pipe)))
  }

  /**
   * One step of a run.  A switch whose scheduler panics changes nothing, and neither does a
   * call when no process but idle is running; only then is there no result.
   */
  ghost predicate Step(s: KernelState, call: Call, res: Option<SysResult>, s': KernelState)
    requires RefOk(s) && CallOk(call)
  {
    if call.Switch? then
      match Schedule(s.st, call.env)
      case None => res == None && s' == s
      case Some(st) => res == Some(Ret(0)) && s' == s.(st := st)
    else if !LiveState(s.st) then res == None && s' == s
    else res.Some? && Did(s, call, res.value, s')
  }

  /** The trace of a run: the invariant in every state, and each state a step from the one before. */
  ghost predicate Ran(calls: seq<Call>, results: seq<Option<SysResult>>, trace: seq<KernelState>) {
    && |results| == |calls| && |trace| == |calls| + 1
    && (forall k :: 0 <= k < |trace| ==> RefOk(trace[k]))
    && (forall k :: 0 <= k < |calls| ==> CallOk(calls[k]) && Step(trace[k], calls[k], results[k], trace[k + 1]))
  }

  lemma RanOn(calls: seq<Call>, results: seq<Option<SysResult>>, trace: seq<KernelState>,
              call: Call, res: Option<SysResult>, s: KernelState)
    requires Ran(calls, results, trace) && RefOk(s) && CallOk(call) && Step(trace[|calls|], call, res, s)
    ensures Ran(calls + [call], results + [res], trace + [s])
  {
    hide RefOk, Step;
  }

  /**
   * What the counters are for: each is the number of live descriptors that name its inode or
   * pipe, so none wraps around, and no live descriptor names a freed inode or a free pipe.
   */
  ghost predicate CountsExact(s: KernelState) {
    && RefOk(s)
    && (forall i :: 0 <= i < NUM_INODES ==> s.inodes[i].refs == Count(s.st.procs, Ino(i)) <= MAX_PROCS * MAX_FDS < U16)
    && (forall q :: 0 <= q < NUM_PIPE_BUFS ==> s.pipes[q] == Count(s.st.procs, Pipe(q)) <= MAX_PROCS * MAX_FDS < U32)
    && (forall p, j :: 0 <= p < MAX_PROCS && 0 <= j < MAX_FDS && ProcAlive(s.st.procs[p].status) ==>
          NamesOpen(s, s.st.procs[p].fds[j]))
  }

  ghost predicate NamesOpen(s: KernelState, fd: Fd)
    requires RefOk(s) && InRange(fd)
  {
    && (Held(fd).Some? ==> s.inodes[Held(fd).value].ftype != Unallocated)
    && (fd.kind.PipeEnd? ==> s.pipes[fd.kind.pipe] > 0)
  }

  lemma RefOkExact(s: KernelState)
    requires RefOk(s)
    ensures CountsExact(s)
  {
    forall t ensures Count(s.st.procs, t) <= MAX_PROCS * MAX_FDS {
      CountBound(s.st.procs, t);
    }
    forall p, j | 0 <= p < MAX_PROCS && 0 <= j < MAX_FDS && ProcAlive(s.st.procs[p].status)
      ensures NamesOpen(s, s.st.procs[p].fds[j])
    {
      OpenIsReferenced(s.inodes, s.pipes, s.st.procs, [], p, j);
    }
  }

  /** The running process blocks or changes its directory. */
  lemma KeepsFds(s: KernelState, p: Proc)
    requires RefOk(s) && LiveState(s.st) && ProcAlive(p.status)
    requires p.fds == s.st.procs[s.st.cur].fds && p.cwd < NUM_INODES
    ensures RefOk(s.(st := SetCur(s.st, p)))
  {
    hide Tally;
    SlotSameCounts(s.st.procs, s.st.cur, p);
    SameCountsTally(s.inodes, s.pipes, s.st.procs, s.st.procs[s.st.cur := p]);
  }

  /** The calls on the running process alone. */
  method PerformOwn(k: Kernel, call: Call) returns (res: SysResult)
    requires k.RefInv() && k.Live() && (call.Cd? || call.WaitFor? || call.BlockOnStdin? || call.BlockOnPipe?)
    modifies k
    ensures k.RefInv() && Did(old(k.View()), call, res, k.View())
  {
    hide Tally, Lookup;
    var me := k.st.procs[k.st.cur];
    res := Ret(0);
    match call {
      case Cd(path) =>
        var found := Lookup(k.fs.inodes, me.cwd, path, true);
        if !found.Found? {
          return if found.Fault? then Crash else Ret(-1);
        }
        me := me.(cwd := found.idx);
      case WaitFor(pid) =>
        if !CanWait(k.st, pid) {
          return Ret(-1);
        }
        me := me.(status := WaitingOnPid, waitingOn := FindPid(k.st.procs, pid, 0));
      case BlockOnStdin => me := me.(status := WaitingOnStdin);
      case BlockOnPipe(pipe) => me := me.(status := WaitingOnPipe, waitingOn := pipe);
    }
    KeepsFds(k.View(), me);
    k.st := SetCur(k.st, me);
  }

  /** A change of the inode table that keeps the references keeps the invariant. */
  lemma TableChange(s: KernelState, inodes: seq<Inode>)
    requires RefOk(s) && RefsKept(s.inodes, inodes)
    ensures RefOk(s.(inodes := inodes))
  {
    RefsKeptTally(s.inodes, inodes, s.pipes, s.st.procs);
  }

  lemma RefOkFree(s: KernelState)
    requires RefOk(s)
    ensures FreeUnreferenced(s.inodes)
  {
    TallyFree(s.inodes, s.pipes, s.st.procs);
  }

  /** The three calls on the inode table alone. */
  method PerformFs(k: Kernel, call: Call) returns (res: SysResult)
    requires k.RefInv() && k.Live() && CallOk(call) && (call.CreateAt? || call.LinkAt? || call.Delete?)
    modifies k, k.fs
    ensures k.RefInv() && Did(old(k.View()), call, res, k.View())
  {
    hide Tally, Lookup, RefsKept, FreeUnreferenced;
    var cwd := k.st.procs[k.st.cur].cwd;
    ghost var s := k.View();
    RefOkFree(s);
    match call {
      case CreateAt(path, name, kind) =>
        CreateRefs(s.inodes, cwd, path, name, kind);
        res := k.fs.SysCreate(cwd, path, name, kind);
      case LinkAt(target, dir, name) =>
        LinkRefs(s.inodes, cwd, target, dir, name);
        res := k.fs.SysLink(cwd, target, dir, name);
      case Delete(path) =>
        ghost var mid;
        res, mid := k.fs.SysDelete(cwd, path);
        if res == Ret(0) {
          DeleteRefs(s.inodes, mid, k.fs.inodes, Named(s, path).idx);
        }
    }
    if k.fs.inodes != s.inodes {
      TableChange(s, k.fs.inodes);
    }
  }

  method PerformSpawn(k: Kernel, path: string, isElf: bool, cmds: seq<(nat, nat)>) returns (res: SysResult)
    requires k.RefInv() && k.Live() && CmdsInRange(cmds) && DistinctTargets(cmds)
    modifies k, k.fs
    ensures k.RefInv() && Did(old(k.View()), SpawnProc(path, isElf, cmds), res, k.View())
  {
    hide Tally, DidSpawn, Overwritten, Lookup, Program;
    var found := Lookup(k.fs.inodes, k.st.procs[k.st.cur].cwd, path, true);
    var check := Program(k.fs.inodes, found, isElf);
    if !check.Runs? {
      return if check.Faults? then Crash else Ret(-1);
    }
    DistinctAreFew(cmds);
    StdTally(k.fs.inodes, k.pipes, k.st.procs);
    DistinctLosesNothing(StdFds(), k.st.procs[k.st.cur].fds, cmds);
    res := k.SysSpawn(cmds);
  }

  /** One call of a run. */
  method Perform(k: Kernel, call: Call) returns (res: Option<SysResult>)
    requires k.RefInv() && CallOk(call)
    modifies k, k.fs
    ensures k.RefInv() && Step(old(k.View()), call, res, k.View())
  {
    hide Tally, Lookup, Schedule;
    if call.Switch? {
      ScheduleTally(k.fs.inodes, k.pipes, k.st, call.env);
      var next := Schedule(k.st, call.env);
      if next.None? {
        return None;
      }
      k.st := next.value;
      return Some(Ret(0));
    }
    if !k.Live() {
      return None;
    }
    var r := Ret(0);
    match call {
      case Open(path, mode) => r := k.SysOpen(path, mode);
      case Close(fd) => r := k.SysClose(fd);
      case MakePipe =>
        var readFd, writeFd;
        r, readFd, writeFd := k.SysPipe();
      case SpawnProc(path, isElf, cmds) => r := PerformSpawn(k, path, isElf, cmds);
      case ExitWith(code) => k.SysExit(code);
      case Cd(_) => r := PerformOwn(k, call);
      case WaitFor(_) => r := PerformOwn(k, call);
      case BlockOnStdin => r := PerformOwn(k, call);
      case BlockOnPipe(_) => r := PerformOwn(k, call);
      case CreateAt(_, _, _) => r := PerformFs(k, call);
      case LinkAt(_, _, _) => r := PerformFs(k, call);
      case Delete(_) => r := PerformFs(k, call);
    }
    res := Some(r);
  }

  /** A run of calls and switches: the trace is what happened, and every state of it keeps the counts. */
  method Run(k: Kernel, calls: seq<Call>) returns (results: seq<Option<SysResult>>, ghost trace: seq<KernelState>)
    requires k.RefInv() && forall i :: 0 <= i < |calls| ==> CallOk(calls[i])
    modifies k, k.fs
    ensures Ran(calls, results, trace) && trace[0] == old(k.View()) && trace[|calls|] == k.View()
    ensures forall i :: 0 <= i < |trace| ==> CountsExact(trace[i])
  {
    hide RefOk, Step, CountsExact;
    results, trace := [], [k.View()];
    for i := 0 to |calls|
      invariant Ran(calls[..i], results, trace) && trace[0] == old(k.View()) && trace[i] == k.View()
    {
      var res := Perform(k, calls[i]);
      RanOn(calls[..i], results, trace, calls[i], res, k.View());
      assert calls[..i] + [calls[i]] == calls[..i + 1];
      results, trace := results + [res], trace + [k.View()];
    }
    assert calls[..|calls|] == calls;
    forall i | 0 <= i < |trace| ensures CountsExact(trace[i]) {
      RefOkExact(trace[i]);
    }
  }

  // ------------------------------------------------------------------ from boot

  /** An image fresh from mkfs: nothing is open. */
  ghost predicate Unreferenced(inodes: seq<Inode>) {
    Table(inodes) && forall i :: 0 <= i < NUM_INODES ==> inodes[i].refs == 0
  }

  function NoPipes(): (r: seq<nat>)
    ensures |r| == NUM_PIPE_BUFS
  {
    seq(NUM_PIPE_BUFS, _ => 0)
  }

  lemma {:induction false} NothingCounted(procs: seq<Proc>, t: Target)
    requires forall i :: 0 <= i < |procs| ==> ProcCount(procs[i], t) == 0
    ensures Count(procs, t) == 0
  {
    if procs != [] {
      NothingCounted(procs[..|procs| - 1], t);
    }
  }

  lemma BootHoldsNothing(i: nat, t: Target)
    ensures ProcCount(WaitProtocol.BootProc(i), t) == 0
  {
    StdFdsCountNone(t);
    FdsCountNone(NO_FDS, t);
  }

  /** The state right after boot keeps the invariant. */
  lemma BootRefs(inodes: seq<Inode>)
    requires Unreferenced(inodes)
    ensures RefOk(KernelState(inodes, NoPipes(), WaitProtocol.BOOTED))
  {
    var procs := WaitProtocol.BOOTED.procs;
    forall t ensures Count(procs, t) == 0 {
      forall i | 0 <= i < |procs| ensures ProcCount(procs[i], t) == 0 {
        BootHoldsNothing(i, t);
      }
      NothingCounted(procs, t);
    }
    assert forall i :: 0 <= i < MAX_PROCS ==> procs[i] == WaitProtocol.BootProc(i);
  }

  /** Boot on a fresh image and run: every state on the way keeps the counts. */
  method BootAndRun(fs: InodeTable, calls: seq<Call>)
    returns (k: Kernel, results: seq<Option<SysResult>>, ghost trace: seq<KernelState>)
    requires Unreferenced(fs.inodes) && forall i :: 0 <= i < |calls| ==> CallOk(calls[i])
    modifies fs
    ensures fresh(k) && k.fs == fs && Ran(calls, results, trace)
    ensures trace[0] == KernelState(old(fs.inodes), NoPipes(), WaitProtocol.BOOTED) && trace[|calls|] == k.View()
    ensures forall i :: 0 <= i < |trace| ==> CountsExact(trace[i])
  {
    hide RefOk, Ran, CountsExact;
    BootRefs(fs.inodes);
    k := new Kernel(fs, WaitProtocol.BOOTED, NoPipes());
    results, trace := Run(k, calls);
  }
}
