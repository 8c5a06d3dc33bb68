/** Counting the live descriptors that name an inode or a pipe. */
module RefCounts {
  import opened FsDefs
  import opened Procs

  const NUM_PIPE_BUFS: nat := 16

  /** What a descriptor can hold a reference to. */
  datatype Target = Ino(i: nat) | Pipe(p: nat)

  function Names(fd: Fd, t: Target): (n: nat)
    ensures n <= 1
  {
    match fd.kind
    case RegularFile(f) => if t == Ino(f) then 1 else 0
    case RegularDirectory(f) => if t == Ino(f) then 1 else 0
    case PipeEnd(p) => if t == Pipe(p) then 1 else 0
    case _ => 0
  }

  ghost function FdsCount(fds: seq<Fd>, t: Target): (n: nat)
    ensures n <= |fds|
  {
    if fds == [] then 0 else FdsCount(fds[..|fds| - 1], t) + Names(fds[|fds| - 1], t)
  }

  /** A dead process holds nothing. */
  ghost function ProcCount(p: Proc, t: Target): (n: nat)
    ensures n <= |p.fds|
  {
    if ProcAlive(p.status) then FdsCount(p.fds, t) else 0
  }

  ghost function Count(procs: seq<Proc>, t: Target): (n: nat) {
    if procs == [] then 0 else Count(procs[..|procs| - 1], t) + ProcCount(procs[|procs| - 1], t)
  }

  lemma {:induction false} FdsCountUpdate(fds: seq<Fd>, j: nat, fd: Fd, t: Target)
    requires j < |fds|
    ensures FdsCount(fds[j := fd], t) == FdsCount(fds, t) - Names(fds[j], t) + Names(fd, t)
  {
    var front := fds[..|fds| - 1];
    if j == |fds| - 1 {
      assert fds[j := fd][..|fds| - 1] == front;
    } else {
      assert fds[j := fd][..|fds| - 1] == front[j := fd];
      FdsCountUpdate(front, j, fd, t);
    }
  }

  lemma {:induction false} CountUpdate(procs: seq<Proc>, i: nat, p: Proc, t: Target)
    requires i < |procs|
    ensures Count(procs[i := p], t) == Count(procs, t) - ProcCount(procs[i], t) + ProcCount(p, t)
  {
    var front := procs[..|procs| - 1];
    if i == |procs| - 1 {
      assert procs[i := p][..|procs| - 1] == front;
    } else {
      assert procs[i := p][..|procs| - 1] == front[i := p];
      CountUpdate(front, i, p, t);
    }
  }

  lemma {:induction false} FdsCountAt(fds: seq<Fd>, j: nat, t: Target)
    requires j < |fds|
    ensures FdsCount(fds, t) >= Names(fds[j], t)
  {
    if j < |fds| - 1 {
      FdsCountAt(fds[..|fds| - 1], j, t);
    }
  }

  lemma {:induction false} CountAt(procs: seq<Proc>, i: nat, t: Target)
    requires i < |procs|
    ensures Count(procs, t) >= ProcCount(procs[i], t)
  {
    if i < |procs| - 1 {
      CountAt(procs[..|procs| - 1], i, t);
    }
  }

  /** No count exceeds processes times descriptors. */
  lemma {:induction false} CountBound(procs: seq<Proc>, t: Target)
    requires forall i :: 0 <= i < |procs| ==> |procs[i].fds| == MAX_FDS
    ensures Count(procs, t) <= |procs| * MAX_FDS
  {
    if procs != [] {
      CountBound(procs[..|procs| - 1], t);
    }
  }

  lemma {:induction false} FdsCountNone(fds: seq<Fd>, t: Target)
    requires forall j :: 0 <= j < |fds| ==> Names(fds[j], t) == 0
    ensures FdsCount(fds, t) == 0
  {
    if fds != [] {
      FdsCountNone(fds[..|fds| - 1], t);
    }
  }

  // ------------------------------------------- the scheduler moves no reference

  ghost predicate SameCounts(procs: seq<Proc>, procs': seq<Proc>) {
    && |procs'| == |procs|
    && (forall t :: Count(procs', t) == Count(procs, t))
  }

  /** Replacing one slot by a process that holds the same references. */
  lemma SlotSameCounts(procs: seq<Proc>, i: nat, p: Proc)
    requires i < |procs|
    requires forall t :: ProcCount(p, t) == ProcCount(procs[i], t)
    ensures SameCounts(procs, procs[i := p])
  {
    forall t ensures Count(procs[i := p], t) == Count(procs, t) {
      CountUpdate(procs, i, p, t);
    }
  }

  lemma StdFdsCountNone(t: Target)
    ensures FdsCount(seq(MAX_FDS, k => StdFd(k)), t) == 0
  {
    FdsCountNone(seq(MAX_FDS, k => StdFd(k)), t);
  }

  lemma VisitSameCounts(st: State, env: Env, i: nat)
    requires i < |st.procs|
    ensures var v := VisitSlot(st, env, i);
            !v.Panic? ==> SameCounts(st.procs, v.st.procs)
  {
    var v := VisitSlot(st, env, i);
    var p := st.procs[i];
    if p.status == Killed {
      var st1 := st;
      if p.pid == st.shPid {
        var n := FirstUnused(st.procs, 0);
        if n < |st.procs| {
          var sh := Proc(st.nextPid, Embryo, 0, 0, 0, 0, 0, seq(MAX_FDS, k => StdFd(k)));
          forall t ensures ProcCount(sh, t) == ProcCount(st.procs[n], t) {
            StdFdsCountNone(t);
          }
          SlotSameCounts(st.procs, n, sh);
          st1 := Exec(st, 0, 0, 0, seq(MAX_FDS, k => StdFd(k))).value.(shPid := st.nextPid);
        }
      }
      if !v.Panic? {
        SlotSameCounts(st1.procs, i, st1.procs[i].(status := Unused));
      }
    } else if v.Chosen? {
      SlotSameCounts(st.procs, i, v.st.procs[i]);
      assert v.st.procs == st.procs[i := v.st.procs[i]];
    }
  }

  lemma {:induction false} PickSameCounts(st: State, env: Env, i: nat)
    requires Idle(st) && i < MAX_PROCS
    ensures var r := Pick(st, env, i);
            r.Some? ==> SameCounts(st.procs, r.value.procs)
    decreases MAX_PROCS - i
  {
    var next := (i + 1) % MAX_PROCS;
    VisitSameCounts(st, env, next);
    var v := VisitSlot(st, env, next);
    if v.Pass? {
      VisitKeepsIdle(st, env, next);
      PickSameCounts(v.st, env, next);
    }
  }
}
