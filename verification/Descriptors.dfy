/**
 * Descriptors and reference counts: open, close, pipe, the descriptor part of spawn, exit, and
 * the filesystem calls between them (kernel/src/syscall.c, kernel/src/exec.c, kernel/src/cleanup.c).
 */
module Descriptors {
  import opened FsDefs
  import opened Paths
  import opened Directories
  import opened Namespace
  import opened Harden
  import opened Procs
  import opened RefCounts

  // ------------------------------------------------------- counts and tallies

  predicate InRange(fd: Fd) {
    match fd.kind
    case RegularFile(f) => f < NUM_INODES
    case RegularDirectory(f) => f < NUM_INODES
    case PipeEnd(p) => p < NUM_PIPE_BUFS
    case _ => true
  }

  ghost predicate ProcShaped(p: Proc) {
    && |p.fds| == MAX_FDS && p.cwd < NUM_INODES
    && (ProcAlive(p.status) ==> forall j :: 0 <= j < MAX_FDS ==> InRange(p.fds[j]))
  }

  ghost predicate Shaped(st: State) {
    && |st.procs| == MAX_PROCS && st.cur < MAX_PROCS
    && forall i :: 0 <= i < MAX_PROCS ==> ProcShaped(st.procs[i])
  }

  /**
   * Every counter equals the number of live descriptors that name it, plus those in `more`
   * (a table not yet installed), minus those in `gone` (already released), and an unallocated
   * inode has no references.
   */
  ghost predicate Tally(inodes: seq<Inode>, pipes: seq<nat>, procs: seq<Proc>, more: seq<Fd>, gone: seq<Fd>) {
    && Table(inodes) && |pipes| == NUM_PIPE_BUFS
    && (forall i :: 0 <= i < NUM_INODES ==>
          inodes[i].refs + FdsCount(gone, Ino(i)) == Count(procs, Ino(i)) + FdsCount(more, Ino(i)))
    && (forall q :: 0 <= q < NUM_PIPE_BUFS ==>
          pipes[q] + FdsCount(gone, Pipe(q)) == Count(procs, Pipe(q)) + FdsCount(more, Pipe(q)))
    && (forall i :: 0 <= i < NUM_INODES && inodes[i].ftype == Unallocated ==> inodes[i].refs == 0)
  }

  /** `acquire_inode` on a u16 counter. */
  function Acquire(ino: Inode): (r: Inode) {
    ino.(refs := (ino.refs + 1) % U16)
  }

  /** `release_inode`: a deleted inode goes with its last reference. */
  function Release(ino: Inode): (r: Inode) {
    var left := ino.(refs := (ino.refs + U16 - 1) % U16);
    if !left.valid && left.refs == 0 then left.(ftype := Unallocated) else left
  }

  /** The inode a descriptor holds, if any. */
  function Held(fd: Fd): (r: Option<nat>) {
    match fd.kind
    case RegularFile(f) => Some(f)
    case RegularDirectory(f) => Some(f)
    case _ => None
  }

  /** Take the reference of a copied descriptor. */
  function TakeInodes(inodes: seq<Inode>, fd: Fd): (r: seq<Inode>)
    requires |inodes| == NUM_INODES && InRange(fd)
  {
    match Held(fd)
    case Some(f) => inodes[f := Acquire(inodes[f])]
    case None => inodes
  }

  function TakePipes(pipes: seq<nat>, fd: Fd): (r: seq<nat>)
    requires |pipes| == NUM_PIPE_BUFS && InRange(fd)
  {
    if fd.kind.PipeEnd? then pipes[fd.kind.pipe := (pipes[fd.kind.pipe] + 1) % U32] else pipes
  }

  /** Drop the reference of a closed descriptor. */
  function DropInodes(inodes: seq<Inode>, fd: Fd): (r: seq<Inode>)
    requires |inodes| == NUM_INODES && InRange(fd)
  {
    match Held(fd)
    case Some(f) => inodes[f := Release(inodes[f])]
    case None => inodes
  }

  function DropPipes(pipes: seq<nat>, fd: Fd): (r: seq<nat>)
    requires |pipes| == NUM_PIPE_BUFS && InRange(fd)
  {
    if fd.kind.PipeEnd? then pipes[fd.kind.pipe := (pipes[fd.kind.pipe] + U32 - 1) % U32] else pipes
  }

  /** No counter is anywhere near wrapping around. */
  lemma TallyBound(inodes: seq<Inode>, pipes: seq<nat>, procs: seq<Proc>, more: seq<Fd>, gone: seq<Fd>)
    requires Tally(inodes, pipes, procs, more, gone) && |procs| == MAX_PROCS
    requires forall i :: 0 <= i < MAX_PROCS ==> |procs[i].fds| == MAX_FDS
    ensures forall i :: 0 <= i < NUM_INODES ==> inodes[i].refs <= MAX_PROCS * MAX_FDS + |more|
    ensures forall q :: 0 <= q < NUM_PIPE_BUFS ==> pipes[q] <= MAX_PROCS * MAX_FDS + |more|
  {
    forall i | 0 <= i < NUM_INODES ensures inodes[i].refs <= MAX_PROCS * MAX_FDS + |more| {
      CountBound(procs, Ino(i));
    }
    forall q | 0 <= q < NUM_PIPE_BUFS ensures pipes[q] <= MAX_PROCS * MAX_FDS + |more| {
      CountBound(procs, Pipe(q));
    }
  }

  /** Taking a reference for one more descriptor of the table in the making. */
  lemma TakeTally(inodes: seq<Inode>, pipes: seq<nat>, procs: seq<Proc>, more: seq<Fd>, more': seq<Fd>, fd: Fd)
    requires Tally(inodes, pipes, procs, more, []) && |procs| == MAX_PROCS && InRange(fd)
    requires forall i :: 0 <= i < MAX_PROCS ==> |procs[i].fds| == MAX_FDS
    requires MAX_PROCS * MAX_FDS + |more| + 1 < U16
    requires forall t :: FdsCount(more', t) == FdsCount(more, t) + Names(fd, t)
    requires Held(fd).Some? ==> inodes[Held(fd).value].ftype != Unallocated
    ensures Tally(TakeInodes(inodes, fd), TakePipes(pipes, fd), procs, more', [])
  {
    hide FdsCount, Count, Tally, Acquire;
    TallyBound(inodes, pipes, procs, more, []);
    TallyTable(inodes, pipes, procs, more, []);
    if Held(fd).Some? {
      var f := Held(fd).value;
      AcquireOne(inodes[f]);
      CountMore(inodes, inodes[f := Acquire(inodes[f])], pipes, pipes, procs, more, more', Ino(f));
    } else if fd.kind.PipeEnd? {
      var q := fd.kind.pipe;
      assert (pipes[q] + 1) % U32 == pipes[q] + 1;
      CountMore(inodes, inodes, pipes, pipes[q := pipes[q] + 1], procs, more, more', Pipe(q));
    } else {
      SameMore(inodes, pipes, procs, more, more');
    }
  }

  lemma AcquireOne(ino: Inode)
    requires ino.refs + 1 < U16
    ensures Acquire(ino) == ino.(refs := ino.refs + 1)
  {
  }

  /** One counter goes up with the descriptors that name it. */
  lemma CountMore(inodes: seq<Inode>, inodes': seq<Inode>, pipes: seq<nat>, pipes': seq<nat>, procs: seq<Proc>,
                  more: seq<Fd>, more': seq<Fd>, t0: Target)
    requires Tally(inodes, pipes, procs, more, []) && Table(inodes') && |pipes'| == NUM_PIPE_BUFS
    requires forall t :: FdsCount(more', t) == FdsCount(more, t) + if t == t0 then 1 else 0
    requires forall i :: 0 <= i < NUM_INODES ==>
               && inodes'[i].refs == inodes[i].refs + (if t0 == Ino(i) then 1 else 0)
               && inodes'[i].ftype == inodes[i].ftype && (t0 == Ino(i) ==> inodes[i].ftype != Unallocated)
    requires forall q :: 0 <= q < NUM_PIPE_BUFS ==> pipes'[q] == pipes[q] + (if t0 == Pipe(q) then 1 else 0)
    ensures Tally(inodes', pipes', procs, more', [])
  {
    hide Count;
  }

  lemma SameMore(inodes: seq<Inode>, pipes: seq<nat>, procs: seq<Proc>, more: seq<Fd>, more': seq<Fd>)
    requires Tally(inodes, pipes, procs, more, []) && forall t :: FdsCount(more', t) == FdsCount(more, t)
    ensures Tally(inodes, pipes, procs, more', [])
  {
    hide Count;
  }

  /** References were dropped: an inode is freed exactly when it was deleted and lost its last one. */
  ghost predicate ReleasedSome(inodes: seq<Inode>, inodes': seq<Inode>) {
    && |inodes'| == |inodes|
    && forall i :: 0 <= i < |inodes| ==>
         && inodes'[i] == inodes[i].(refs := inodes'[i].refs, ftype := inodes'[i].ftype)
         && inodes'[i].refs <= inodes[i].refs
         && inodes'[i].ftype ==
            if !inodes[i].valid && inodes'[i].refs == 0 < inodes[i].refs then Unallocated else inodes[i].ftype
  }

  /** The descriptor released next is counted. */
  lemma DropCounted(inodes: seq<Inode>, pipes: seq<nat>, procs: seq<Proc>, gone: seq<Fd>, fd: Fd)
    requires Tally(inodes, pipes, procs, [], gone) && |procs| == MAX_PROCS && InRange(fd)
    requires forall i :: 0 <= i < MAX_PROCS ==> |procs[i].fds| == MAX_FDS
    requires forall t :: FdsCount(gone + [fd], t) <= Count(procs, t)
    ensures Held(fd).Some? ==> 0 < inodes[Held(fd).value].refs < U16
  {
    TallyBound(inodes, pipes, procs, [], gone);
    assert (gone + [fd])[..|gone|] == gone;
    assert forall t :: FdsCount(gone + [fd], t) == FdsCount(gone, t) + Names(fd, t);
    hide FdsCount, Count;
    if Held(fd).Some? {
      var t := Ino(Held(fd).value);
      assert FdsCount(gone + [fd], t) <= Count(procs, t);
    }
  }

  /** Dropping the reference of the next descriptor. */
  lemma DropTally(inodes: seq<Inode>, pipes: seq<nat>, procs: seq<Proc>, gone: seq<Fd>, fd: Fd)
    requires Tally(inodes, pipes, procs, [], gone) && |procs| == MAX_PROCS && InRange(fd)
    requires forall i :: 0 <= i < MAX_PROCS ==> |procs[i].fds| == MAX_FDS
    requires forall t :: FdsCount(gone + [fd], t) <= Count(procs, t)
    ensures Tally(DropInodes(inodes, fd), DropPipes(pipes, fd), procs, [], gone + [fd])
  {
    hide FdsCount, Count, Tally, Release;
    TallyBound(inodes, pipes, procs, [], gone);
    TallyTable(inodes, pipes, procs, [], gone);
    forall t ensures FdsCount(gone + [fd], t) == FdsCount(gone, t) + Names(fd, t) {
      FdsCountConcat(gone, [fd], t);
      FdsCountOne(fd, t);
    }
    if Held(fd).Some? {
      var f := Held(fd).value;
      Counted(inodes, pipes, procs, gone, Ino(f));
      assert FdsCount(gone + [fd], Ino(f)) <= Count(procs, Ino(f));
      ReleaseOne(inodes[f]);
      CountGone(inodes, inodes[f := Release(inodes[f])], pipes, pipes, procs, gone, gone + [fd], Ino(f));
    } else if fd.kind.PipeEnd? {
      var q := fd.kind.pipe;
      Counted(inodes, pipes, procs, gone, Pipe(q));
      assert FdsCount(gone + [fd], Pipe(q)) <= Count(procs, Pipe(q));
      assert (pipes[q] + U32 - 1) % U32 == pipes[q] - 1;
      CountGone(inodes, inodes, pipes, pipes[q := pipes[q] - 1], procs, gone, gone + [fd], Pipe(q));
    } else {
      SameGone(inodes, pipes, procs, gone, gone + [fd]);
    }
  }

  lemma Counted(inodes: seq<Inode>, pipes: seq<nat>, procs: seq<Proc>, gone: seq<Fd>, t: Target)
    requires Tally(inodes, pipes, procs, [], gone)
    ensures t.Ino? && t.i < NUM_INODES ==>
              && inodes[t.i].refs + FdsCount(gone, t) == Count(procs, t)
              && (inodes[t.i].refs > 0 ==> inodes[t.i].ftype != Unallocated)
    ensures t.Pipe? && t.p < NUM_PIPE_BUFS ==> pipes[t.p] + FdsCount(gone, t) == Count(procs, t)
  {
    hide Count;
    assert FdsCount([], t) == 0;
  }

  /** One counter goes down with the descriptors that named it. */
  lemma CountGone(inodes: seq<Inode>, inodes': seq<Inode>, pipes: seq<nat>, pipes': seq<nat>, procs: seq<Proc>,
                  gone: seq<Fd>, gone': seq<Fd>, t0: Target)
    requires Tally(inodes, pipes, procs, [], gone) && Table(inodes') && |pipes'| == NUM_PIPE_BUFS
    requires forall t :: FdsCount(gone', t) == FdsCount(gone, t) + if t == t0 then 1 else 0
    requires forall i :: 0 <= i < NUM_INODES ==>
               && inodes'[i].refs + (if t0 == Ino(i) then 1 else 0) == inodes[i].refs
               && (inodes'[i].ftype == Unallocated ==> inodes'[i].refs == 0 || inodes[i].ftype == Unallocated)
               && (inodes[i].ftype == Unallocated ==> t0 != Ino(i))
    requires forall q :: 0 <= q < NUM_PIPE_BUFS ==> pipes'[q] + (if t0 == Pipe(q) then 1 else 0) == pipes[q]
    ensures Tally(inodes', pipes', procs, [], gone')
  {
    hide Count;
  }

  lemma SameGone(inodes: seq<Inode>, pipes: seq<nat>, procs: seq<Proc>, gone: seq<Fd>, gone': seq<Fd>)
    requires Tally(inodes, pipes, procs, [], gone) && forall t :: FdsCount(gone', t) == FdsCount(gone, t)
    ensures Tally(inodes, pipes, procs, [], gone')
  {
    hide Count;
  }

  lemma ReleaseOne(ino: Inode)
    requires 0 < ino.refs < U16
    ensures Release(ino) == ino.(refs := ino.refs - 1, ftype := Release(ino).ftype)
    ensures Release(ino).ftype == if !ino.valid && ino.refs == 1 then Unallocated else ino.ftype
  {
  }

  lemma {:induction false} PrefixCount(fds: seq<Fd>, n: nat, t: Target)
    requires n <= |fds|
    ensures FdsCount(fds[..n], t) <= FdsCount(fds, t)
    decreases |fds| - n
  {
    if n < |fds| {
      assert fds[..n + 1][..n] == fds[..n];
      PrefixCount(fds, n + 1, t);
    } else {
      assert fds[..n] == fds;
    }
  }

  /** A table of descriptors becomes part of slot `i`. */
  lemma InstallTally(inodes: seq<Inode>, pipes: seq<nat>, procs: seq<Proc>, more: seq<Fd>, i: nat, p: Proc)
    requires Tally(inodes, pipes, procs, more, []) && i < |procs|
    requires forall t :: ProcCount(p, t) == ProcCount(procs[i], t) + FdsCount(more, t)
    ensures Tally(inodes, pipes, procs[i := p], [], [])
  {
    forall t ensures Count(procs[i := p], t) == Count(procs, t) + FdsCount(more, t) {
      CountUpdate(procs, i, p, t);
    }
  }

  /** Slot `i` gives up descriptors that were already released. */
  lemma RemoveTally(inodes: seq<Inode>, pipes: seq<nat>, procs: seq<Proc>, gone: seq<Fd>, i: nat, p: Proc)
    requires Tally(inodes, pipes, procs, [], gone) && i < |procs|
    requires forall t :: ProcCount(p, t) + FdsCount(gone, t) == ProcCount(procs[i], t)
    ensures Tally(inodes, pipes, procs[i := p], [], [])
  {
    forall t ensures Count(procs[i := p], t) + FdsCount(gone, t) == Count(procs, t) {
      CountUpdate(procs, i, p, t);
    }
  }

  lemma FdsCountOne(fd: Fd, t: Target)
    ensures FdsCount([fd], t) == Names(fd, t)
  {
    assert [fd][..0] == [];
  }

  /** Opening a descriptor in a free place of the running process. */
  lemma OpenTally(inodes: seq<Inode>, pipes: seq<nat>, procs: seq<Proc>, i: nat, j: nat, fd: Fd)
    requires Tally(inodes, pipes, procs, [], []) && |procs| == MAX_PROCS && i < MAX_PROCS
    requires forall k :: 0 <= k < MAX_PROCS ==> |procs[k].fds| == MAX_FDS
    requires ProcAlive(procs[i].status) && j < MAX_FDS && procs[i].fds[j].kind == Unmapped && InRange(fd)
    requires Held(fd).Some? ==> inodes[Held(fd).value].ftype != Unallocated
    ensures Tally(TakeInodes(inodes, fd), TakePipes(pipes, fd),
                  procs[i := procs[i].(fds := procs[i].fds[j := fd])], [], [])
  {
    forall t ensures FdsCount([fd], t) == FdsCount([], t) + Names(fd, t) {
      FdsCountOne(fd, t);
    }
    TakeTally(inodes, pipes, procs, [], [fd], fd);
    forall t ensures FdsCount(procs[i].fds[j := fd], t) == FdsCount(procs[i].fds, t) + Names(fd, t) {
      FdsCountUpdate(procs[i].fds, j, fd, t);
    }
    InstallTally(TakeInodes(inodes, fd), TakePipes(pipes, fd), procs, [fd], i,
                 procs[i].(fds := procs[i].fds[j := fd]));
  }

  /** Closing a descriptor of the running process. */
  lemma CloseTally(inodes: seq<Inode>, pipes: seq<nat>, procs: seq<Proc>, i: nat, j: nat)
    requires Tally(inodes, pipes, procs, [], []) && |procs| == MAX_PROCS && i < MAX_PROCS
    requires forall k :: 0 <= k < MAX_PROCS ==> |procs[k].fds| == MAX_FDS
    requires ProcAlive(procs[i].status) && j < MAX_FDS && InRange(procs[i].fds[j])
    ensures var fd := procs[i].fds[j];
            Tally(DropInodes(inodes, fd), DropPipes(pipes, fd),
                  procs[i := procs[i].(fds := procs[i].fds[j := fd.(kind := Unmapped)])], [], [])
  {
    var fds := procs[i].fds;
    var fd := fds[j];
    forall t ensures FdsCount([] + [fd], t) <= Count(procs, t) {
      assert [] + [fd] == [fd];
      FdsCountOne(fd, t);
      FdsCountAt(fds, j, t);
      CountAt(procs, i, t);
    }
    DropTally(inodes, pipes, procs, [], fd);
    assert [] + [fd] == [fd];
    var free := fd.(kind := Unmapped);
    forall t ensures FdsCount(fds[j := free], t) + FdsCount([fd], t) == FdsCount(fds, t) {
      FdsCountUpdate(fds, j, free, t);
      FdsCountOne(fd, t);
    }
    RemoveTally(DropInodes(inodes, fd), DropPipes(pipes, fd), procs, [fd], i, procs[i].(fds := fds[j := free]));
  }

  /** A pipe opened at both ends. */
  lemma PipeTally(inodes: seq<Inode>, pipes: seq<nat>, procs: seq<Proc>, i: nat, j: nat, k: nat, r: Fd, w: Fd, q: nat)
    requires Tally(inodes, pipes, procs, [], []) && |procs| == MAX_PROCS && i < MAX_PROCS
    requires forall m :: 0 <= m < MAX_PROCS ==> |procs[m].fds| == MAX_FDS
    requires ProcAlive(procs[i].status) && j < k < MAX_FDS
    requires procs[i].fds[j].kind == Unmapped && procs[i].fds[k].kind == Unmapped
    requires q < |pipes| == NUM_PIPE_BUFS && pipes[q] == 0 && r.kind == w.kind == PipeEnd(q)
    ensures Tally(inodes, pipes[q := 2], procs[i := procs[i].(fds := procs[i].fds[j := r][k := w])], [], [])
  {
    hide Tally;
    OpenTally(inodes, pipes, procs, i, j, r);
    var procs1 := procs[i := procs[i].(fds := procs[i].fds[j := r])];
    OpenTally(inodes, pipes[q := 1], procs1, i, k, w);
    assert procs1[i := procs1[i].(fds := procs1[i].fds[k := w])]
        == procs[i := procs[i].(fds := procs[i].fds[j := r][k := w])];
    assert pipes[q := 1][q := 2] == pipes[q := 2];
  }

  /** An inode or pipe that a live descriptor names is referenced, so the inode is allocated. */
  lemma OpenIsReferenced(inodes: seq<Inode>, pipes: seq<nat>, procs: seq<Proc>, more: seq<Fd>, i: nat, j: nat)
    requires Tally(inodes, pipes, procs, more, []) && i < |procs| && j < |procs[i].fds|
    requires ProcAlive(procs[i].status) && InRange(procs[i].fds[j])
    ensures Held(procs[i].fds[j]).Some? ==>
              var f := Held(procs[i].fds[j]).value; inodes[f].refs > 0 && inodes[f].ftype != Unallocated
    ensures procs[i].fds[j].kind.PipeEnd? ==> pipes[procs[i].fds[j].kind.pipe] > 0
  {
    var fd := procs[i].fds[j];
    if Held(fd).Some? || fd.kind.PipeEnd? {
      var t := if Held(fd).Some? then Ino(Held(fd).value) else Pipe(fd.kind.pipe);
      FdsCountAt(procs[i].fds, j, t);
      CountAt(procs, i, t);
    }
  }

  /** The descriptors of a new process after the remap commands (from, to) of its parent. */
  function Remapped(fds: seq<Fd>, mine: seq<Fd>, cmds: seq<(nat, nat)>): (r: seq<Fd>)
    requires |fds| == |mine| == MAX_FDS
    requires forall k :: 0 <= k < |cmds| ==> cmds[k].0 < MAX_FDS && cmds[k].1 < MAX_FDS
    ensures |r| == MAX_FDS
    decreases |cmds|
  {
    if cmds == [] then fds else Remapped(fds[cmds[0].1 := mine[cmds[0].0]], mine, cmds[1..])
  }

  /** What the commands overwrite on the way: the descriptors that were in their targets before them. */
  function Overwritten(fds: seq<Fd>, mine: seq<Fd>, cmds: seq<(nat, nat)>): (r: seq<Fd>)
    requires |fds| == |mine| == MAX_FDS
    requires forall k :: 0 <= k < |cmds| ==> cmds[k].0 < MAX_FDS && cmds[k].1 < MAX_FDS
    ensures |r| == |cmds|
    decreases |cmds|
  {
    if cmds == [] then []
    else [fds[cmds[0].1]] + Overwritten(fds[cmds[0].1 := mine[cmds[0].0]], mine, cmds[1..])
  }

  function StdFds(): (r: seq<Fd>)
    ensures |r| == MAX_FDS
  {
    seq(MAX_FDS, k => StdFd(k))
  }

  /** A fresh process takes its descriptors over into an unused slot; what was overwritten stays counted. */
  lemma SpawnTally(inodes: seq<Inode>, pipes: seq<nat>, procs: seq<Proc>, fds: seq<Fd>, lost: seq<Fd>, n: nat, p: Proc)
    requires Tally(inodes, pipes, procs, fds + lost, []) && n < |procs| && procs[n].status == Unused
    requires ProcAlive(p.status) && p.fds == fds
    ensures Tally(inodes, pipes, procs[n := p], lost, [])
  {
    forall t ensures Count(procs[n := p], t) + FdsCount(lost, t) == Count(procs, t) + FdsCount(fds + lost, t) {
      CountUpdate(procs, n, p, t);
      FdsCountConcat(fds, lost, t);
    }
  }

  lemma {:induction false} FdsCountConcat(a: seq<Fd>, b: seq<Fd>, t: Target)
    ensures FdsCount(a + b, t) == FdsCount(a, t) + FdsCount(b, t)
    decreases |b|
  {
    if b == [] {
      assert a + b == a;
    } else {
      assert (a + b)[..|a + b| - 1] == a + b[..|b| - 1];
      FdsCountConcat(a, b[..|b| - 1], t);
    }
  }

  /** Replacing one descriptor and keeping the old one aside counts the new one. */
  lemma OverwriteCount(fds: seq<Fd>, lost: seq<Fd>, j: nat, fd: Fd, t: Target)
    requires j < |fds|
    ensures FdsCount(fds[j := fd] + (lost + [fds[j]]), t) == FdsCount(fds + lost, t) + Names(fd, t)
  {
    FdsCountUpdate(fds, j, fd, t);
    FdsCountConcat(fds[j := fd], lost + [fds[j]], t);
    FdsCountConcat(fds, lost, t);
    FdsCountConcat(lost, [fds[j]], t);
    FdsCountOne(fds[j], t);
  }

  predicate HoldsNothing(fds: seq<Fd>) {
    forall j :: 0 <= j < |fds| ==> Held(fds[j]).None? && !fds[j].kind.PipeEnd?
  }

  /** Descriptors kept aside leave the counters right exactly when they hold nothing. */
  lemma LostTally(inodes: seq<Inode>, pipes: seq<nat>, procs: seq<Proc>, lost: seq<Fd>)
    requires Tally(inodes, pipes, procs, lost, []) && forall j :: 0 <= j < |lost| ==> InRange(lost[j])
    ensures Tally(inodes, pipes, procs, [], []) <==> HoldsNothing(lost)
  {
    if HoldsNothing(lost) {
      forall t ensures FdsCount(lost, t) == 0 {
        FdsCountNone(lost, t);
      }
    } else {
      var j :| 0 <= j < |lost| && (Held(lost[j]).Some? || lost[j].kind.PipeEnd?);
      var t := if Held(lost[j]).Some? then Ino(Held(lost[j]).value) else Pipe(lost[j].kind.pipe);
      FdsCountAt(lost, j, t);
    }
  }

  /** With distinct targets only standard descriptors are overwritten, and those hold nothing. */
  lemma {:induction false} DistinctLosesNothing(fds: seq<Fd>, mine: seq<Fd>, cmds: seq<(nat, nat)>)
    requires |fds| == |mine| == MAX_FDS && CmdsInRange(cmds) && DistinctTargets(cmds)
    requires forall k :: 0 <= k < |cmds| ==> HoldsNothing([fds[cmds[k].1]])
    ensures HoldsNothing(Overwritten(fds, mine, cmds))
    decreases |cmds|
  {
    if cmds != [] {
      var fds', rest := fds[cmds[0].1 := mine[cmds[0].0]], cmds[1..];
      forall k | 0 <= k < |rest| ensures HoldsNothing([fds'[rest[k].1]]) {
        assert rest[k] == cmds[k + 1];
      }
      DistinctLosesNothing(fds', mine, rest);
      assert HoldsNothing([fds[cmds[0].1]]);
      var first := [fds[cmds[0].1]][0];
      assert Held(first).None? && !first.kind.PipeEnd?;
    }
  }

  /** Two commands with one target: the reference that the first took is lost. */
  lemma RepeatedTargetLoses(f: nat)
    ensures var mine := StdFds()[3 := Fd(RegularFile(f), 0, 0)];
            !HoldsNothing(Overwritten(StdFds(), mine, [(3, 5), (0, 5)]))
  {
    var mine, cmds := StdFds()[3 := Fd(RegularFile(f), 0, 0)], [(3, 5), (0, 5)];
    assert cmds[1..] == [(0, 5)];
    assert Overwritten(StdFds(), mine, cmds)[1] == Fd(RegularFile(f), 0, 0);
  }

  /** There are no more distinct targets than descriptors. */
  lemma DistinctAreFew(cmds: seq<(nat, nat)>)
    requires CmdsInRange(cmds) && DistinctTargets(cmds)
    ensures |cmds| <= MAX_FDS
  {
    BelowSize(MAX_FDS);
    TargetsSize(cmds);
    forall k | 0 <= k < |cmds| ensures cmds[k].1 in Below(MAX_FDS) {
      BelowHas(MAX_FDS, cmds[k].1);
    }
    hide Below;
    SubsetSize(Targets(cmds), Below(MAX_FDS));
  }

  ghost function Targets(cmds: seq<(nat, nat)>): (r: set<nat>) {
    set k | 0 <= k < |cmds| :: cmds[k].1
  }

  lemma {:induction false} TargetsSize(cmds: seq<(nat, nat)>)
    requires DistinctTargets(cmds)
    ensures |Targets(cmds)| == |cmds|
    decreases |cmds|
  {
    if cmds != [] {
      var front, last := cmds[..|cmds| - 1], cmds[|cmds| - 1];
      TargetsSize(front);
      assert Targets(cmds) == Targets(front) + {last.1};
    }
  }

  ghost function Below(n: nat): (r: set<nat>) {
    if n == 0 then {} else Below(n - 1) + {n - 1}
  }

  lemma {:induction false} BelowSize(n: nat)
    ensures |Below(n)| == n
  {
    if n > 0 {
      BelowSize(n - 1);
      BelowHas(n - 1, n - 1);
    }
  }

  lemma {:induction false} BelowHas(n: nat, i: nat)
    ensures i in Below(n) <==> i < n
  {
    if n > 0 {
      BelowHas(n - 1, i);
    }
  }

  lemma {:induction false} SubsetSize(a: set<nat>, b: set<nat>)
    requires a <= b
    ensures |a| <= |b|
    decreases b
  {
    if b != {} {
      var x :| x in b;
      SubsetSize(a - {x}, b - {x});
    }
  }

  lemma StdTally(inodes: seq<Inode>, pipes: seq<nat>, procs: seq<Proc>)
    requires Tally(inodes, pipes, procs, [], [])
    ensures Tally(inodes, pipes, procs, StdFds() + [], []) && HoldsNothing(StdFds())
  {
    assert StdFds() + [] == StdFds();
    forall t ensures FdsCount(StdFds(), t) == 0 {
      FdsCountNone(StdFds(), t);
    }
  }

  /** The directory calls move no reference and free only unreferenced inodes. */
  ghost predicate RefsKept(inodes: seq<Inode>, inodes': seq<Inode>) {
    && Table(inodes) && Table(inodes')
    && forall i :: 0 <= i < NUM_INODES ==>
         inodes'[i].refs == inodes[i].refs && (inodes'[i].ftype == Unallocated ==> inodes[i].refs == 0)
  }

  lemma RefsKeptTally(inodes: seq<Inode>, inodes': seq<Inode>, pipes: seq<nat>, procs: seq<Proc>)
    requires Tally(inodes, pipes, procs, [], []) && RefsKept(inodes, inodes')
    ensures Tally(inodes', pipes, procs, [], [])
  {
  }

  ghost predicate FreeUnreferenced(inodes: seq<Inode>) {
    && Table(inodes)
    && forall i :: 0 <= i < NUM_INODES && inodes[i].ftype == Unallocated ==> inodes[i].refs == 0
  }

  lemma InsertRefs(inodes: seq<Inode>, p: nat, name: string, kind: FileType, head: nat)
    requires FreeUnreferenced(inodes) && p < NUM_INODES && CanHold(inodes[p], name)
    ensures RefsKept(inodes, Insert(inodes, p, name, kind, head).1)
  {
  }

  lemma CreateRefs(inodes: seq<Inode>, cwd: nat, parentPath: string, name: string, kind: FileType)
    requires FreeUnreferenced(inodes) && cwd < NUM_INODES
    ensures RefsKept(inodes, Create(inodes, cwd, parentPath, name, kind).1)
  {
    hide Lookup, Insert;
    var r := Lookup(inodes, cwd, parentPath, true);
    if r.Found? && CanHold(inodes[r.idx], name) {
      InsertRefs(inodes, r.idx, name, kind, 0);
    }
  }

  lemma LinkRefs(inodes: seq<Inode>, cwd: nat, targetPath: string, dirPath: string, name: string)
    requires FreeUnreferenced(inodes) && cwd < NUM_INODES
    ensures RefsKept(inodes, Link(inodes, cwd, targetPath, dirPath, name).1)
  {
    hide Lookup, Insert;
    var t, r := Lookup(inodes, cwd, targetPath, true), Lookup(inodes, cwd, dirPath, true);
    if t.Found? && r.Found? && CanHold(inodes[r.idx], name) {
      InsertRefs(inodes, r.idx, name, Symlink, t.idx);
    }
  }

  lemma DeleteRefs(inodes: seq<Inode>, mid: seq<Inode>, inodes': seq<Inode>, x: nat)
    requires FreeUnreferenced(inodes) && DeletedAs(inodes, mid, inodes', x)
    ensures RefsKept(inodes, inodes')
  {
  }

  /**
   * `sys_harden` copies the target's counter over the symlink's, so it keeps the counts exactly
   * when the two counters agree.
   */
  lemma HardenTally(inodes: seq<Inode>, pipes: seq<nat>, procs: seq<Proc>, s: nat)
    requires Tally(inodes, pipes, procs, [], []) && CanHarden(inodes, s)
    ensures Tally(Hardened(inodes, s), pipes, procs, [], []) <==> inodes[s].refs == inodes[inodes[s].head].refs
  {
    var r, t := Hardened(inodes, s), inodes[s].head;
    assert r[s].refs == inodes[t].refs;
    if inodes[s].refs == inodes[t].refs {
      assert forall i :: 0 <= i < NUM_INODES ==> r[i].refs == inodes[i].refs;
    } else {
      assert inodes[s].refs + FdsCount([], Ino(s)) == Count(procs, Ino(s)) + FdsCount([], Ino(s));
    }
  }

  /** One process that holds the file a link names: hardening the link makes two counters wrong. */
  lemma HardenTallyBreaks()
    ensures var inodes := ApartTree()[3 := ApartTree()[3].(refs := 1)];
            var procs := [Proc(1, Runnable, 0, 0, 0, 0, 0, [Fd(RegularFile(3), 0, 0)])];
            var pipes := seq(NUM_PIPE_BUFS, _ => 0);
            && CanHarden(inodes, 2) && Tally(inodes, pipes, procs, [], [])
            && !Tally(Hardened(inodes, 2), pipes, procs, [], [])
  {
    var inodes := ApartTree()[3 := ApartTree()[3].(refs := 1)];
    var procs := [Proc(1, Runnable, 0, 0, 0, 0, 0, [Fd(RegularFile(3), 0, 0)])];
    var pipes: seq<nat> := seq(NUM_PIPE_BUFS, _ => 0);
    forall t ensures Count(procs, t) == if t == Ino(3) then 1 else 0 {
      OneHolder(procs[0], t);
    }
    hide Count;
    assert Table(inodes);
    assert Tally(inodes, pipes, procs, [], []);
    HardenTally(inodes, pipes, procs, 2);
  }

  lemma OneHolder(p: Proc, t: Target)
    requires ProcAlive(p.status) && |p.fds| == 1
    ensures Count([p], t) == Names(p.fds[0], t)
  {
    assert [p][..0] == [];
    assert p.fds[..0] == [];
  }

  // ------------------------------------------------------------- the scheduler

  lemma VisitShaped(st: State, env: Env, i: nat)
    requires Shaped(st) && i < MAX_PROCS
    ensures var v := VisitSlot(st, env, i);
            !v.Panic? ==> Shaped(v.st)
  {
    hide ProcShaped;
    var p := st.procs[i];
    StatusShaped(p, Runnable, p.exitCode);
    StatusShaped(p, Unused, p.exitCode);
    if p.status == WaitingOnPid && p.waitingOn < MAX_PROCS {
      StatusShaped(p, Runnable, st.procs[p.waitingOn].exitCode);
    }
    ShellShaped(st.nextPid);
  }

  lemma StatusShaped(p: Proc, status: Status, code: nat)
    requires ProcShaped(p)
    ensures (ProcAlive(status) ==> ProcAlive(p.status)) ==> ProcShaped(p.(status := status, exitCode := code))
  {
  }

  lemma ShellShaped(pid: nat)
    ensures ProcShaped(Proc(pid, Embryo, 0, 0, 0, 0, 0, seq(MAX_FDS, k => StdFd(k))))
  {
  }

  lemma {:induction false} PickShaped(st: State, env: Env, i: nat)
    requires Shaped(st) && Idle(st) && i < MAX_PROCS
    ensures var r := Pick(st, env, i);
            r.Some? ==> Shaped(r.value) && Idle(r.value)
    decreases MAX_PROCS - i
  {
    var next := (i + 1) % MAX_PROCS;
    VisitShaped(st, env, next);
    var v := VisitSlot(st, env, next);
    if next != 0 {
      VisitKeepsIdle(st, env, next);
      if v.Pass? {
        PickShaped(v.st, env, next);
      }
    }
  }

  /** A context switch leaves every count as it is. */
  lemma ScheduleTally(inodes: seq<Inode>, pipes: seq<nat>, st: State, env: Env)
    requires Shaped(st) && Idle(st) && Tally(inodes, pipes, st.procs, [], [])
    ensures var r := Schedule(st, env);
            r.Some? ==> Shaped(r.value) && Idle(r.value) && Tally(inodes, pipes, r.value.procs, [], [])
  {
    PickShaped(st, env, st.cur);
    PickSameCounts(st, env, st.cur);
    var r := Pick(st, env, st.cur);
    if r.Some? {
      SlotSameCounts(r.value.procs, r.value.cur, Started(r.value.procs[r.value.cur]));
    }
  }

  // -------------------------------------------------------------- the syscalls

  datatype OpenResult = Opened(kind: FdKind) | Refused | Died

  /**
   * The descriptor kind `sys_open` chooses for inode `t`: the descriptor names `t` itself even when it
   * is a symlink.
   */
  function OpenKind(inodes: seq<Inode>, t: nat): (r: OpenResult)
    requires t < |inodes|
    ensures r.Opened? ==> inodes[t].ftype != Unallocated && (r.kind == RegularFile(t) || r.kind == RegularDirectory(t))
  {
    match inodes[t].ftype
    case File => Opened(RegularFile(t))
    case Directory => Opened(RegularDirectory(t))
    case Unallocated => Died
    case Symlink =>
      match Follow(inodes, t, 0)
      case Missing => Refused
      case Fault => Died
      case Found(e) =>
        match inodes[e].ftype
        case File => Opened(RegularFile(t))
        case Directory => Opened(RegularDirectory(t))
        case _ => Died
  }

  /** What the calls work on: the inode table, the pipes' counters and the process table. */
  datatype KernelState = KernelState(inodes: seq<Inode>, pipes: seq<nat>, st: State)

  /** Each counter is the number of live descriptors that name it; no free inode has any. */
  ghost predicate RefOk(s: KernelState) {
    && Shaped(s.st) && Idle(s.st) && Table(s.inodes) && |s.pipes| == NUM_PIPE_BUFS
    && Tally(s.inodes, s.pipes, s.st.procs, [], [])
  }

  /** A syscall comes from a running process other than idle. */
  predicate LiveState(st: State) {
    0 < st.cur < |st.procs| && st.procs[st.cur].status == Runnable
  }

  /** The lowest unmapped descriptor from `from` on. */
  function LowestFd(fds: seq<Fd>, from: nat): (i: nat)
    requires from <= |fds|
    ensures from <= i <= |fds|
    decreases |fds| - from
  {
    if from == |fds| || fds[from].kind == Unmapped then from else LowestFd(fds, from + 1)
  }

  /** The lowest pipe without references, from `from` on. */
  function LowestPipe(pipes: seq<nat>, from: nat): (q: nat)
    requires from <= |pipes|
    ensures from <= q <= |pipes|
    decreases |pipes| - from
  {
    if from == |pipes| || pipes[from] == 0 then from else LowestPipe(pipes, from + 1)
  }

  /** The references a child takes with the remap commands of its parent. */
  ghost function TakenInodes(inodes: seq<Inode>, mine: seq<Fd>, cmds: seq<(nat, nat)>): (r: seq<Inode>)
    requires |inodes| == NUM_INODES && CopiesInRange(mine, cmds)
    ensures |r| == NUM_INODES
    decreases |cmds|
  {
    if cmds == [] then inodes else TakenInodes(TakeInodes(inodes, mine[cmds[0].0]), mine, cmds[1..])
  }

  ghost function TakenPipes(pipes: seq<nat>, mine: seq<Fd>, cmds: seq<(nat, nat)>): (r: seq<nat>)
    requires |pipes| == NUM_PIPE_BUFS && CopiesInRange(mine, cmds)
    decreases |cmds|
  {
    if cmds == [] then pipes else TakenPipes(TakePipes(pipes, mine[cmds[0].0]), mine, cmds[1..])
  }

  ghost predicate CopiesInRange(mine: seq<Fd>, cmds: seq<(nat, nat)>) {
    (forall j :: 0 <= j < |mine| ==> InRange(mine[j])) && forall k :: 0 <= k < |cmds| ==> cmds[k].0 < |mine|
  }

  /** The references an ending process gives up, descriptor by descriptor. */
  ghost function ReleasedInodes(inodes: seq<Inode>, fds: seq<Fd>): (r: seq<Inode>)
    requires |inodes| == NUM_INODES && forall j :: 0 <= j < |fds| ==> InRange(fds[j])
    ensures |r| == NUM_INODES
    decreases |fds|
  {
    if fds == [] then inodes else ReleasedInodes(DropInodes(inodes, fds[0]), fds[1..])
  }

  ghost function ReleasedPipes(pipes: seq<nat>, fds: seq<Fd>): (r: seq<nat>)
    requires |pipes| == NUM_PIPE_BUFS && forall j :: 0 <= j < |fds| ==> InRange(fds[j])
    decreases |fds|
  {
    if fds == [] then pipes else ReleasedPipes(DropPipes(pipes, fds[0]), fds[1..])
  }

  // What each call does, with its result: every way it can fail, and the whole new state.

  /** `found` is what the path named: the lowest free descriptor now holds it, with one more reference. */
  ghost predicate DidOpen(s: KernelState, found: Resolution, mode: nat, res: SysResult, s': KernelState)
    requires RefOk(s) && LiveState(s.st) && (found.Found? ==> found.idx < NUM_INODES)
  {
    var me := s.st.procs[s.st.cur];
    var i := LowestFd(me.fds, 0);
    if found.Fault? then res == Crash && s' == s
    else if found.Missing? || i == MAX_FDS then res == Ret(-1) && s' == s
    else
      match OpenKind(s.inodes, found.idx)
      case Died => res == Crash && s' == s
      case Refused => res == Ret(-1) && s' == s
      case Opened(kind) =>
        var f := s.inodes[found.idx];
        && res == Ret(i)
        && s' == s.(inodes := s.inodes[found.idx := f.(refs := f.refs + 1)],
                    st := SetCur(s.st, me.(fds := me.fds[i := Fd(kind, mode, 0)])))
  }

  ghost predicate DidClose(s: KernelState, fd: nat, res: SysResult, s': KernelState)
    requires RefOk(s) && LiveState(s.st)
  {
    var me := s.st.procs[s.st.cur];
    if fd >= MAX_FDS || me.fds[fd].kind == Unmapped then res == Ret(-1) && s' == s
    else
      && res == Ret(0)
      && s' == KernelState(DropInodes(s.inodes, me.fds[fd]), DropPipes(s.pipes, me.fds[fd]),
                           SetCur(s.st, me.(fds := me.fds[fd := me.fds[fd].(kind := Unmapped)])))
  }

  ghost predicate DidPipe(s: KernelState, res: SysResult, s': KernelState)
    requires RefOk(s) && LiveState(s.st)
  {
    var me := s.st.procs[s.st.cur];
    var r := LowestFd(me.fds, 0);
    var w := if r == MAX_FDS then MAX_FDS else LowestFd(me.fds, r + 1);
    var q := LowestPipe(s.pipes, 0);
    if w == MAX_FDS || q == NUM_PIPE_BUFS then res == Ret(-1) && s' == s
    else
      && res == Ret(0)
      && s' == s.(pipes := s.pipes[q := 2],
                  st := SetCur(s.st, me.(fds := me.fds[r := Fd(PipeEnd(q), 2, 0)][w := Fd(PipeEnd(q), 4, 0)])))
  }

  predicate CmdsInRange(cmds: seq<(nat, nat)>) {
    forall k :: 0 <= k < |cmds| ==> cmds[k].0 < MAX_FDS && cmds[k].1 < MAX_FDS
  }

  /** So few commands that no counter can wrap around. */
  predicate FewEnough(cmds: seq<(nat, nat)>) {
    MAX_PROCS * MAX_FDS + MAX_FDS + |cmds| < U16
  }

  ghost predicate DistinctTargets(cmds: seq<(nat, nat)>) {
    forall k, m :: 0 <= k < m < |cmds| ==> cmds[k].1 != cmds[m].1
  }

  /** The table with a child of the running process; `None` when it is full. */
  function WithChild(st: State, cmds: seq<(nat, nat)>): (r: Option<State>)
    requires st.cur < |st.procs| && |st.procs[st.cur].fds| == MAX_FDS && CmdsInRange(cmds)
  {
    Exec(st, st.procs[st.cur].pid, st.cur, st.procs[st.cur].cwd, Remapped(StdFds(), st.procs[st.cur].fds, cmds))
  }

  ghost predicate DidSpawn(s: KernelState, cmds: seq<(nat, nat)>, res: SysResult, s': KernelState)
    requires RefOk(s) && LiveState(s.st) && CmdsInRange(cmds)
  {
    if WithChild(s.st, cmds).None? then res == Crash && s' == s
    else
      && res == Ret(s.st.nextPid)
      && s' == KernelState(TakenInodes(s.inodes, s.st.procs[s.st.cur].fds, cmds),
                           TakenPipes(s.pipes, s.st.procs[s.st.cur].fds, cmds), WithChild(s.st, cmds).value)
  }

  ghost predicate DidExit(s: KernelState, code: nat, s': KernelState)
    requires RefOk(s) && LiveState(s.st)
  {
    var fds := s.st.procs[s.st.cur].fds;
    s' == KernelState(ReleasedInodes(s.inodes, fds), ReleasedPipes(s.pipes, fds), Exit(s.st, code))
  }

  lemma RemapStep(inodes: seq<Inode>, pipes: seq<nat>, fds: seq<Fd>, mine: seq<Fd>, cmds: seq<(nat, nat)>, i: nat)
    requires |inodes| == NUM_INODES && |pipes| == NUM_PIPE_BUFS && |fds| == |mine| == MAX_FDS && i < |cmds|
    requires CopiesInRange(mine, cmds[i..]) && CmdsInRange(cmds[i..])
    ensures cmds[i].0 < MAX_FDS && cmds[i].1 < MAX_FDS && CopiesInRange(mine, cmds[i + 1..])
            && CmdsInRange(cmds[i + 1..])
    ensures var fd := mine[cmds[i].0];
            && Remapped(fds[cmds[i].1 := fd], mine, cmds[i + 1..]) == Remapped(fds, mine, cmds[i..])
            && [fds[cmds[i].1]] + Overwritten(fds[cmds[i].1 := fd], mine, cmds[i + 1..])
               == Overwritten(fds, mine, cmds[i..])
            && |TakeInodes(inodes, fd)| == NUM_INODES && |TakePipes(pipes, fd)| == NUM_PIPE_BUFS
            && TakenInodes(TakeInodes(inodes, fd), mine, cmds[i + 1..]) == TakenInodes(inodes, mine, cmds[i..])
            && TakenPipes(TakePipes(pipes, fd), mine, cmds[i + 1..]) == TakenPipes(pipes, mine, cmds[i..])
  {
    assert cmds[i..][0] == cmds[i] && cmds[i..][1..] == cmds[i + 1..];
  }

  lemma RemapEnd(inodes: seq<Inode>, pipes: seq<nat>, fds: seq<Fd>, mine: seq<Fd>, cmds: seq<(nat, nat)>)
    requires |inodes| == NUM_INODES && |pipes| == NUM_PIPE_BUFS && |fds| == |mine| == MAX_FDS
    requires CopiesInRange(mine, cmds[|cmds|..])
    ensures Remapped(fds, mine, cmds[|cmds|..]) == fds && TakenInodes(inodes, mine, cmds[|cmds|..]) == inodes
    ensures TakenPipes(pipes, mine, cmds[|cmds|..]) == pipes && Overwritten(fds, mine, cmds[|cmds|..]) == []
  {
  }

  lemma TwoWrites(st: State, j: nat, k: nat, r: Fd, w: Fd)
    requires st.cur < |st.procs| && j < |st.procs[st.cur].fds| && k < |st.procs[st.cur].fds|
    ensures var me := st.procs[st.cur];
            var st1 := SetCur(st, me.(fds := me.fds[j := r]));
            SetCur(st1, st1.procs[st.cur].(fds := st1.procs[st.cur].fds[k := w]))
            == SetCur(st, me.(fds := me.fds[j := r][k := w]))
  {
  }

  lemma NothingReleased(inodes: seq<Inode>)
    ensures ReleasedSome(inodes, inodes)
  {
  }

  lemma ReleaseStep(before: seq<Inode>, inodes: seq<Inode>, pipes: seq<nat>, fds: seq<Fd>, i: nat)
    requires |inodes| == NUM_INODES && |pipes| == NUM_PIPE_BUFS && i < |fds|
    requires InRange(fds[i]) && forall j :: 0 <= j < |fds| ==> InRange(fds[j])
    requires ReleasedSome(before, inodes) && (Held(fds[i]).Some? ==> 0 < inodes[Held(fds[i]).value].refs < U16)
    ensures |DropInodes(inodes, fds[i])| == NUM_INODES && |DropPipes(pipes, fds[i])| == NUM_PIPE_BUFS
    ensures ReleasedInodes(DropInodes(inodes, fds[i]), fds[i + 1..]) == ReleasedInodes(inodes, fds[i..])
    ensures ReleasedPipes(DropPipes(pipes, fds[i]), fds[i + 1..]) == ReleasedPipes(pipes, fds[i..])
    ensures ReleasedSome(before, DropInodes(inodes, fds[i]))
  {
    assert fds[i..][0] == fds[i] && fds[i..][1..] == fds[i + 1..];
    hide ReleasedSome, DropInodes, DropPipes;
    ReleasedOne(before, inodes, fds[i]);
  }

  lemma ReleasedOne(before: seq<Inode>, inodes: seq<Inode>, fd: Fd)
    requires |inodes| == NUM_INODES && InRange(fd)
    requires ReleasedSome(before, inodes) && (Held(fd).Some? ==> 0 < inodes[Held(fd).value].refs < U16)
    ensures ReleasedSome(before, DropInodes(inodes, fd))
  {
    if Held(fd).Some? {
      ReleaseOne(inodes[Held(fd).value]);
    }
    hide Release;
  }

  lemma ReleaseEnd(inodes: seq<Inode>, pipes: seq<nat>, fds: seq<Fd>)
    requires |inodes| == NUM_INODES && |pipes| == NUM_PIPE_BUFS
    ensures ReleasedInodes(inodes, fds[|fds|..]) == inodes && ReleasedPipes(pipes, fds[|fds|..]) == pipes
  {
  }

  lemma TallyTable(inodes: seq<Inode>, pipes: seq<nat>, procs: seq<Proc>, more: seq<Fd>, gone: seq<Fd>)
    requires Tally(inodes, pipes, procs, more, gone)
    ensures Table(inodes) && |pipes| == NUM_PIPE_BUFS
  {
  }

  class Kernel {
    const fs: InodeTable
    var st: State
    var pipes: seq<nat>

    ghost function View(): (s: KernelState)
      reads this, fs
    {
      KernelState(fs.inodes, pipes, st)
    }

    ghost predicate RefInv()
      reads this, fs
    {
      RefOk(View())
    }

    predicate Live()
      reads this
    {
      LiveState(st)
    }

    constructor (fs: InodeTable, st: State, pipes: seq<nat>)
      ensures this.fs == fs && this.st == st && this.pipes == pipes
    {
      this.fs, this.st, this.pipes := fs, st, pipes;
    }

    /** The lowest unmapped descriptor of the running process, from `from` on. */
    method FreeFd(from: nat) returns (i: nat)
      requires st.cur < |st.procs| && |st.procs[st.cur].fds| == MAX_FDS && from <= MAX_FDS
      ensures i == LowestFd(st.procs[st.cur].fds, from)
      ensures i < MAX_FDS ==> st.procs[st.cur].fds[i].kind == Unmapped
    {
      i := from;
      while i < MAX_FDS
        invariant from <= i <= MAX_FDS && LowestFd(st.procs[st.cur].fds, i) == LowestFd(st.procs[st.cur].fds, from)
      {
        if st.procs[st.cur].fds[i].kind == Unmapped {
          return;
        }
        i := i + 1;
      }
    }

    /** `sys_open`: the lowest free descriptor now holds the inode the path names, with one more reference. */
    method SysOpen(path: string, mode: nat) returns (res: SysResult)
      requires RefInv() && Live()
      modifies this, fs
      ensures RefInv()
      ensures var s := old(View());
              DidOpen(s, Lookup(s.inodes, s.st.procs[s.st.cur].cwd, path, true), mode, res, View())
    {
      hide Lookup, Tally;
      var me := st.procs[st.cur];
      var target := Lookup(fs.inodes, me.cwd, path, true);
      if !target.Found? {
        return if target.Fault? then Crash else Ret(-1);
      }
      var i := FreeFd(0);
      if i == MAX_FDS {
        return Ret(-1);
      }
      var kind := OpenKind(fs.inodes, target.idx);
      if !kind.Opened? {
        return if kind.Died? then Crash else Ret(-1);
      }
      var fd := Fd(kind.kind, mode, 0);
      OpenTally(fs.inodes, pipes, st.procs, st.cur, i, fd);
      TallyBound(fs.inodes, pipes, st.procs, [], []);
      st := SetCur(st, me.(fds := me.fds[i := fd]));
      fs.inodes := fs.inodes[target.idx := Acquire(fs.inodes[target.idx])];
      res := Ret(i);
    }

    /** `sys_close`: the reference goes, and with the last one of a deleted inode the inode. */
    method SysClose(fd: nat) returns (res: SysResult)
      requires RefInv() && Live()
      modifies this, fs
      ensures RefInv()
      ensures DidClose(old(View()), fd, res, View())
    {
      hide Tally;
      if fd >= MAX_FDS {
        return Ret(-1);
      }
      var me := st.procs[st.cur];
      if me.fds[fd].kind == Unmapped {
        return Ret(-1);
      }
      CloseTally(fs.inodes, pipes, st.procs, st.cur, fd);
      if Held(me.fds[fd]).Some? {
        var f := Held(me.fds[fd]).value;
        fs.inodes := fs.inodes[f := Release(fs.inodes[f])];
      } else if me.fds[fd].kind.PipeEnd? {
        var p := me.fds[fd].kind.pipe;
        pipes := pipes[p := (pipes[p] + U32 - 1) % U32];
      }
      st := SetCur(st, me.(fds := me.fds[fd := me.fds[fd].(kind := Unmapped)]));
      res := Ret(0);
    }

    /** The lowest pipe without references. */
    method FreePipe() returns (q: nat)
      requires |pipes| == NUM_PIPE_BUFS
      ensures q == LowestPipe(pipes, 0) && (q < NUM_PIPE_BUFS ==> pipes[q] == 0)
    {
      q := 0;
      while q < NUM_PIPE_BUFS
        invariant q <= NUM_PIPE_BUFS && LowestPipe(pipes, q) == LowestPipe(pipes, 0)
      {
        if pipes[q] == 0 {
          return;
        }
        q := q + 1;
      }
    }

    /**
     * `sys_pipe`: two new descriptors on a pipe that no live descriptor named before, so no two
     * pipes ever share a buffer.
     */
    method SysPipe() returns (res: SysResult, readFd: nat, writeFd: nat)
      requires RefInv() && Live()
      modifies this
      ensures RefInv()
      ensures DidPipe(old(View()), res, View())
      ensures res == Ret(0) ==>
        var q := LowestPipe(old(pipes), 0);
        q < NUM_PIPE_BUFS && Count(old(st).procs, Pipe(q)) == 0 && readFd < writeFd < MAX_FDS
        && st.procs[st.cur].fds[readFd].kind == st.procs[st.cur].fds[writeFd].kind == PipeEnd(q)
    {
      hide Tally, LowestFd, LowestPipe, Count, FdsCount;
      var me := st.procs[st.cur];
      readFd := FreeFd(0);
      writeFd := if readFd == MAX_FDS then MAX_FDS else readFd;
      if readFd < MAX_FDS {
        writeFd := FreeFd(readFd + 1);
      }
      if writeFd == MAX_FDS {
        return Ret(-1), readFd, writeFd;
      }
      var q := FreePipe();
      if q == NUM_PIPE_BUFS {
        return Ret(-1), readFd, writeFd;
      }
      Counted(fs.inodes, pipes, st.procs, [], Pipe(q));
      var r, w := Fd(PipeEnd(q), 2, 0), Fd(PipeEnd(q), 4, 0);
      PipeTally(fs.inodes, pipes, st.procs, st.cur, readFd, writeFd, r, w, q);
      TwoWrites(st, readFd, writeFd, r, w);
      pipes := pipes[q := 2];
      st := SetCur(st, me.(fds := me.fds[readFd := r]));
      st := SetCur(st, st.procs[st.cur].(fds := st.procs[st.cur].fds[writeFd := w]));
      res := Ret(0);
    }

    /** Count a copy of a descriptor. */
    method TakeFd(fd: Fd)
      requires |fs.inodes| == NUM_INODES && |pipes| == NUM_PIPE_BUFS && InRange(fd)
      modifies this`pipes, fs
      ensures fs.inodes == TakeInodes(old(fs.inodes), fd) && pipes == TakePipes(old(pipes), fd)
    {
      if Held(fd).Some? {
        var f := Held(fd).value;
        fs.inodes := fs.inodes[f := Acquire(fs.inodes[f])];
      } else if fd.kind.PipeEnd? {
        pipes := pipes[fd.kind.pipe := (pipes[fd.kind.pipe] + 1) % U32];
      }
    }

    /** Uncount a descriptor that goes. */
    method DropFd(fd: Fd)
      requires |fs.inodes| == NUM_INODES && |pipes| == NUM_PIPE_BUFS && InRange(fd)
      modifies this`pipes, fs
      ensures fs.inodes == DropInodes(old(fs.inodes), fd) && pipes == DropPipes(old(pipes), fd)
    {
      if Held(fd).Some? {
        var f := Held(fd).value;
        fs.inodes := fs.inodes[f := Release(fs.inodes[f])];
      } else if fd.kind.PipeEnd? {
        pipes := pipes[fd.kind.pipe := (pipes[fd.kind.pipe] + U32 - 1) % U32];
      }
    }

    /** The remap loop of `exec_helper`; descriptors it overwrites stay counted. */
    method RemapFds(cmds: seq<(nat, nat)>) returns (fds: seq<Fd>, ghost lost: seq<Fd>)
      requires RefInv() && Live() && CmdsInRange(cmds) && FewEnough(cmds)
      modifies this`pipes, fs
      ensures fds == Remapped(StdFds(), st.procs[st.cur].fds, cmds)
      ensures lost == Overwritten(StdFds(), st.procs[st.cur].fds, cmds)
      ensures Tally(fs.inodes, pipes, st.procs, fds + lost, [])
      ensures forall j :: 0 <= j < MAX_FDS ==> InRange(fds[j])
      ensures forall j :: 0 <= j < |lost| ==> InRange(lost[j])
      ensures CopiesInRange(st.procs[st.cur].fds, cmds)
      ensures fs.inodes == TakenInodes(old(fs.inodes), st.procs[st.cur].fds, cmds)
      ensures pipes == TakenPipes(old(pipes), st.procs[st.cur].fds, cmds)
    {
      hide Tally, TakenInodes, TakenPipes, Remapped, Overwritten, TakeInodes, TakePipes;
      var mine := st.procs[st.cur].fds;
      fds, lost := StdFds(), [];
      StdTally(fs.inodes, pipes, st.procs);
      assert cmds[0..] == cmds;
      for i := 0 to |cmds|
        invariant |fds| == MAX_FDS && |lost| == i && Table(fs.inodes) && |pipes| == NUM_PIPE_BUFS
        invariant forall j :: 0 <= j < MAX_FDS ==> InRange(fds[j])
        invariant forall j :: 0 <= j < |lost| ==> InRange(lost[j])
        invariant Tally(fs.inodes, pipes, st.procs, fds + lost, [])
        invariant CopiesInRange(mine, cmds[i..]) && CmdsInRange(cmds[i..])
        invariant Remapped(fds, mine, cmds[i..]) == Remapped(StdFds(), mine, cmds)
        invariant lost + Overwritten(fds, mine, cmds[i..]) == Overwritten(StdFds(), mine, cmds)
        invariant TakenInodes(fs.inodes, mine, cmds[i..]) == TakenInodes(old(fs.inodes), mine, cmds)
        invariant TakenPipes(pipes, mine, cmds[i..]) == TakenPipes(old(pipes), mine, cmds)
      {
        RemapStep(fs.inodes, pipes, fds, mine, cmds, i);
        var (from, to) := cmds[i];
        var fd := mine[from];
        OpenIsReferenced(fs.inodes, pipes, st.procs, fds + lost, st.cur, from);
        forall t ensures FdsCount(fds[to := fd] + (lost + [fds[to]]), t) == FdsCount(fds + lost, t) + Names(fd, t) {
          OverwriteCount(fds, lost, to, fd, t);
        }
        TakeTally(fs.inodes, pipes, st.procs, fds + lost, fds[to := fd] + (lost + [fds[to]]), fd);
        fds, lost := fds[to := fd], lost + [fds[to]];
        TakeFd(fd);
        TallyTable(fs.inodes, pipes, st.procs, fds + lost, []);
      }
      RemapEnd(fs.inodes, pipes, fds, mine, cmds);
    }

    /**
     * The process part of `sys_spawn_proc`; a full table is a panic.  The counts stay right exactly
     * when the remap commands overwrite no descriptor that holds an inode or a pipe.
     */
    method SysSpawn(cmds: seq<(nat, nat)>) returns (res: SysResult)
      requires RefInv() && Live() && CmdsInRange(cmds) && FewEnough(cmds)
      modifies this, fs
      ensures DidSpawn(old(View()), cmds, res, View())
      ensures RefInv() <==> res == Crash || HoldsNothing(Overwritten(StdFds(), old(st).procs[old(st).cur].fds, cmds))
    {
      hide Tally, TakenInodes, TakenPipes, Remapped, Overwritten, HoldsNothing;
      var n := FirstUnused(st.procs, 0);
      if n == MAX_PROCS {
        return Crash;
      }
      var me := st.procs[st.cur];
      var fds, lost := RemapFds(cmds);
      var p := Proc(st.nextPid, Embryo, me.pid, st.cur, 0, 0, me.cwd, fds);
      SpawnTally(fs.inodes, pipes, st.procs, fds, lost, n, p);
      LostTally(fs.inodes, pipes, st.procs[n := p], lost);
      TallyTable(fs.inodes, pipes, st.procs, fds + lost, []);
      res := Ret(st.nextPid);
      st := st.(procs := st.procs[n := p], nextPid := st.nextPid + 1);
    }

    /** `cleanup_proc` on the descriptors, then the end of the running process. */
    method SysExit(code: nat)
      requires RefInv() && Live()
      modifies this, fs
      ensures RefInv() && DidExit(old(View()), code, View()) && ReleasedSome(old(fs.inodes), fs.inodes)
    {
      hide Tally, ReleasedInodes, ReleasedPipes, ReleasedSome, DropInodes, DropPipes;
      var me := st.procs[st.cur];
      ghost var procs := st.procs;
      assert me.fds[..0] == [] && me.fds[0..] == me.fds;
      NothingReleased(fs.inodes);
      for i := 0 to MAX_FDS
        invariant st == old(st) && Table(fs.inodes) && |pipes| == NUM_PIPE_BUFS
        invariant Tally(fs.inodes, pipes, procs, [], me.fds[..i]) && ReleasedSome(old(fs.inodes), fs.inodes)
        invariant ReleasedInodes(fs.inodes, me.fds[i..]) == ReleasedInodes(old(fs.inodes), me.fds)
        invariant ReleasedPipes(pipes, me.fds[i..]) == ReleasedPipes(old(pipes), me.fds)
      {
        var fd := me.fds[i];
        assert me.fds[..i] + [fd] == me.fds[..i + 1];
        forall t ensures FdsCount(me.fds[..i + 1], t) <= Count(procs, t) {
          PrefixCount(me.fds, i + 1, t);
          CountAt(procs, st.cur, t);
        }
        DropTally(fs.inodes, pipes, procs, me.fds[..i], fd);
        DropCounted(fs.inodes, pipes, procs, me.fds[..i], fd);
        ReleaseStep(old(fs.inodes), fs.inodes, pipes, me.fds, i);
        DropFd(fd);
        TallyTable(fs.inodes, pipes, procs, [], me.fds[..i + 1]);
      }
      ReleaseEnd(fs.inodes, pipes, me.fds);
      assert me.fds[..MAX_FDS] == me.fds;
      RemoveTally(fs.inodes, pipes, procs, me.fds, st.cur, me.(status := Killed, exitCode := code));
      st := SetCur(st, me.(status := Killed, exitCode := FAULT_EXIT_CODE));
      st := SetCur(st, st.procs[st.cur].(exitCode := code));
      assert st.procs == procs[st.cur := me.(status := Killed, exitCode := code)];
    }
  }

  lemma TallyFree(inodes: seq<Inode>, pipes: seq<nat>, procs: seq<Proc>)
    requires Tally(inodes, pipes, procs, [], [])
    ensures FreeUnreferenced(inodes)
  {
  }

  lemma SameCountsTally(inodes: seq<Inode>, pipes: seq<nat>, procs: seq<Proc>, procs': seq<Proc>)
    requires Tally(inodes, pipes, procs, [], []) && SameCounts(procs, procs')
    ensures Tally(inodes, pipes, procs', [], [])
  {
  }
}
