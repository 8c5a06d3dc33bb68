/** The process table: allocation, exit, wait and the scheduler (kernel/src/proc.c, kernel/src/syscall.c). */
module Procs {
  import opened FsDefs

  const MAX_PROCS: nat := 256
  const MAX_FDS: nat := 16
  const FAULT_EXIT_CODE: nat := 128

  datatype Option<+T> = None | Some(value: T)

  datatype Status = Unused | Embryo | Runnable | WaitingOnPid | WaitingOnStdin | WaitingOnPipe | Killed

  datatype FdKind =
    | Unmapped | Stdin | Stdout | Stderr
    | RegularFile(file: nat) | RegularDirectory(file: nat) | PipeEnd(pipe: nat)

  datatype Fd = Fd(kind: FdKind, mode: nat, ptr: nat)

  datatype Proc = Proc(pid: nat, status: Status, parentPid: nat, parentIdx: nat,
                       waitingOn: nat, exitCode: nat, cwd: nat, fds: seq<Fd>)

  /** The table, the slot that runs, the next pid, and the pid of the shell the kernel keeps alive. */
  datatype State = State(procs: seq<Proc>, cur: nat, nextPid: nat, shPid: nat)

  const NO_FDS: seq<Fd> := seq(MAX_FDS, _ => Fd(Unmapped, 0, 0))

  /** `proc_alive`. */
  predicate ProcAlive(s: Status) {
    s.Embryo? || s.Runnable? || s.WaitingOnPid? || s.WaitingOnPipe? || s.WaitingOnStdin?
  }

  // ------------------------------------------------------------------ steps

  /** The first unused slot from `i` on. */
  function FirstUnused(procs: seq<Proc>, i: nat): (n: nat)
    requires i <= |procs|
    ensures i <= n <= |procs|
    ensures n < |procs| ==> procs[n].status == Unused
    ensures forall j :: i <= j < n ==> procs[j].status != Unused
    decreases |procs| - i
  {
    if i == |procs| || procs[i].status == Unused then i else FirstUnused(procs, i + 1)
  }

  /** `alloc_proc` and the process fields `exec_helper` sets: a fresh embryo, or a panic when the table is full. */
  function Exec(st: State, parentPid: nat, parentIdx: nat, cwd: nat, fds: seq<Fd>): (r: Option<State>) {
    var n := FirstUnused(st.procs, 0);
    if n == |st.procs| then None
    else
      Some(st.(procs := st.procs[n := Proc(st.nextPid, Embryo, parentPid, parentIdx, 0, 0, cwd, fds)],
               nextPid := st.nextPid + 1))
  }

  /** A change of the running process. */
  function SetCur(st: State, p: Proc): (r: State)
    requires st.cur < |st.procs|
  {
    st.(procs := st.procs[st.cur := p])
  }

  /** `cleanup_proc` and `sys_exit`, or a fault, on the running process. */
  function Exit(st: State, code: nat): (r: State)
    requires st.cur < |st.procs|
  {
    SetCur(st, st.procs[st.cur].(status := Killed, exitCode := code))
  }

  /** The first slot from `i` on that carries `pid`. */
  function FindPid(procs: seq<Proc>, pid: nat, i: nat): (n: nat)
    requires i <= |procs|
    ensures i <= n <= |procs|
    ensures n < |procs| ==> procs[n].pid == pid
    ensures forall j :: i <= j < n ==> procs[j].pid != pid
    decreases |procs| - i
  {
    if i == |procs| || procs[i].pid == pid then i else FindPid(procs, pid, i + 1)
  }

  /** `sys_wait` finds the slot and its parent is the running process. */
  predicate CanWait(st: State, pid: nat)
    requires st.cur < |st.procs|
  {
    var n := FindPid(st.procs, pid, 0);
    n < |st.procs| && st.procs[n].parentPid == st.procs[st.cur].pid
  }

  /** `sys_wait` up to the switch; when it fails at once the state is the same. */
  function Wait(st: State, pid: nat): (r: State)
    requires st.cur < |st.procs|
  {
    if CanWait(st, pid) then
      SetCur(st, st.procs[st.cur].(status := WaitingOnPid, waitingOn := FindPid(st.procs, pid, 0)))
    else st
  }

  /** What the scheduler sees of the devices: stdin has input, and which pipes have. */
  datatype Env = Env(stdinReady: bool, pipeReady: seq<bool>)

  datatype Visit = Chosen(st: State) | Pass(st: State) | Panic

  /** One round of the scheduler loop, on slot `i`. */
  function VisitSlot(st: State, env: Env, i: nat): (r: Visit)
    requires i < |st.procs|
  {
    var p := st.procs[i];
    match p.status
    case Embryo => Chosen(st.(cur := i))
    case Runnable => Chosen(st.(cur := i))
    case WaitingOnPid =>
      if p.waitingOn < |st.procs| && st.procs[p.waitingOn].status == Killed then
        var code := st.procs[p.waitingOn].exitCode;
        Chosen(st.(cur := i, procs := st.procs[i := p.(status := Runnable, exitCode := code)]))
      else Pass(st)
    case WaitingOnStdin =>
      if env.stdinReady then Chosen(st.(cur := i, procs := st.procs[i := p.(status := Runnable)])) else Pass(st)
    case WaitingOnPipe =>
      if p.waitingOn < |env.pipeReady| && env.pipeReady[p.waitingOn] then
        Chosen(st.(cur := i, procs := st.procs[i := p.(status := Runnable)]))
      else Pass(st)
    case Killed =>
      if p.pid == st.shPid then
        match Exec(st, 0, 0, 0, seq(MAX_FDS, k => StdFd(k)))
        case None => Panic
        case Some(st') => Pass(Reap(st'.(shPid := st.nextPid), i))
      else Pass(Reap(st, i))
    case Unused => Pass(st)
  }

  /** The three descriptors every process starts with. */
  function StdFd(k: int): (r: Fd) {
    if k == 0 then Fd(Stdout, 4, 0) else if k == 1 then Fd(Stdin, 2, 0) else if k == 2 then Fd(Stderr, 4, 0)
    else Fd(Unmapped, 0, 0)
  }

  /** A killed slot whose parent slot is not alive becomes unused. */
  function Reap(st: State, i: nat): (r: State)
    requires i < |st.procs|
  {
    var p := st.procs[i];
    if p.parentIdx < |st.procs| && ProcAlive(st.procs[p.parentIdx].status) then st
    else st.(procs := st.procs[i := p.(status := Unused)])
  }

  /** The idle process in slot 0 can always run. */
  predicate Idle(st: State) {
    |st.procs| == MAX_PROCS && st.procs[0].status == Runnable
  }

  lemma VisitKeepsIdle(st: State, env: Env, i: nat)
    requires Idle(st) && 0 < i < MAX_PROCS
    ensures var v := VisitSlot(st, env, i); !v.Panic? ==> Idle(v.st)
  {
  }

  /** `scheduler` from slot `i` on; `None` is the panic of a failed respawn. */
  function Pick(st: State, env: Env, i: nat): (r: Option<State>)
    requires Idle(st) && i < MAX_PROCS
    decreases MAX_PROCS - i
  {
    var next := (i + 1) % MAX_PROCS;
    match VisitSlot(st, env, next)
    case Chosen(st') => Some(st')
    case Panic => None
    case Pass(st') => VisitKeepsIdle(st, env, next); Pick(st', env, next)
  }

  /** A context switch: run the scheduler, then start the chosen process if it is new. */
  function Schedule(st: State, env: Env): (r: Option<State>)
    requires Idle(st) && st.cur < MAX_PROCS
  {
    match Pick(st, env, st.cur)
    case None => None
    case Some(st') => Some(if st'.cur < |st'.procs| then SetCur(st', Started(st'.procs[st'.cur])) else st')
  }

  function Started(p: Proc): (r: Proc) {
    if p.status == Embryo then p.(status := Runnable) else p
  }
}
