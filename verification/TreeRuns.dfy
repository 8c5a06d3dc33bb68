/**
 * The directory tree over whole runs (kernel/src/syscall.c, kernel/src/fs.c): it stays well
 * formed and lists only live inodes until a call deletes the empty root.
 */
module TreeRuns {
  import opened FsDefs
  import opened Paths
  import opened Directories
  import opened Namespace
  import opened Procs
  import opened RefCounts
  import opened Descriptors
  import opened KernelRuns
  import FileData
  import MkFs
  import WaitProtocol

  /** A well-formed tree whose root and listed inodes are not marked as deleted. */
  ghost predicate Sound(inodes: seq<Inode>) {
    && WellFormed(inodes) && inodes[0].valid
    && forall x :: 0 < x < NUM_INODES && Listed(inodes, x) ==> inodes[x].valid
  }

  /** Counters may move, and inodes already marked as deleted may be freed; nothing else changes. */
  ghost predicate OnlyReleased(a: seq<Inode>, b: seq<Inode>) {
    && Table(a) && Table(b)
    && forall i :: 0 <= i < NUM_INODES ==>
         && b[i] == a[i].(refs := b[i].refs, ftype := b[i].ftype)
         && (b[i].ftype == a[i].ftype || (!a[i].valid && b[i].ftype == Unallocated))
  }

  lemma OnlyReleasedOn(a: seq<Inode>, b: seq<Inode>, c: seq<Inode>)
    requires OnlyReleased(a, b) && OnlyReleased(b, c)
    ensures OnlyReleased(a, c)
  {
  }

  /** The listing of every directory, and what is listed, is the same. */
  ghost predicate SameTree(a: seq<Inode>, b: seq<Inode>) {
    && Table(a) && Table(b)
    && b[0].ftype == a[0].ftype && b[0].valid == a[0].valid
    && (forall i :: 0 <= i < NUM_INODES ==> b[i].name == a[i].name && b[i].parent == a[i].parent)
    && (forall d :: 0 <= d < NUM_INODES && b[d].ftype == Directory ==>
          && a[d].ftype == Directory && b[d].head == a[d].head
          && (a[d].head <= NDIRECT ==> Entries(b[d]) == Entries(a[d])))
    && (forall x :: 0 < x < NUM_INODES && Listed(a, x) ==> b[x].ftype == a[x].ftype && b[x].valid == a[x].valid)
  }

  lemma EntryListed(a: seq<Inode>, d: nat, k: nat)
    requires WellFormed(a) && d < NUM_INODES && a[d].ftype == Directory && k < a[d].head
    ensures a[d].head <= NDIRECT && EntryOk(a, d, a[d].slots[k]) && Listed(a, a[d].slots[k])
  {
    assert DirOk(a, d);
    assert Entries(a[d])[k] == a[d].slots[k];
  }

  lemma SameTreeKeeps(a: seq<Inode>, b: seq<Inode>)
    requires Sound(a) && SameTree(a, b)
    ensures Sound(b)
  {
    hide LegalName;
    forall d | 0 <= d < NUM_INODES && b[d].ftype == Directory ensures DirOk(b, d) {
      SameTreeDir(a, b, d);
    }
    forall x | 0 < x < NUM_INODES && Listed(b, x) ensures b[x].valid {
      assert Listed(a, x);
    }
  }

  lemma SameTreeDir(a: seq<Inode>, b: seq<Inode>, d: nat)
    requires Sound(a) && SameTree(a, b) && d < NUM_INODES && b[d].ftype == Directory
    ensures DirOk(b, d)
  {
    hide LegalName;
    assert DirOk(a, d);
    forall k | 0 <= k < b[d].head
      ensures b[d].slots[k] == a[d].slots[k] && EntryOk(b, d, b[d].slots[k])
    {
      EntryListed(a, d, k);
      assert Entries(b[d])[k] == Entries(a[d])[k];
    }
  }

  lemma ReleasedIsSameTree(a: seq<Inode>, b: seq<Inode>)
    requires Sound(a) && OnlyReleased(a, b)
    ensures SameTree(a, b)
  {
    hide WellFormed;
  }

  // --------------------------------------------------------- the single calls

  lemma DropReleases(inodes: seq<Inode>, fd: Fd)
    requires Table(inodes) && InRange(fd)
    ensures OnlyReleased(inodes, DropInodes(inodes, fd))
  {
  }

  lemma TakeReleases(inodes: seq<Inode>, fd: Fd)
    requires Table(inodes) && InRange(fd)
    ensures OnlyReleased(inodes, TakeInodes(inodes, fd))
  {
  }

  lemma {:induction false} TakenReleases(inodes: seq<Inode>, mine: seq<Fd>, cmds: seq<(nat, nat)>)
    requires Table(inodes) && CopiesInRange(mine, cmds)
    ensures OnlyReleased(inodes, TakenInodes(inodes, mine, cmds))
    decreases |cmds|
  {
    hide OnlyReleased, TakeInodes;
    if cmds == [] {
      SameReleases(inodes);
    } else {
      var next := TakeInodes(inodes, mine[cmds[0].0]);
      TakeReleases(inodes, mine[cmds[0].0]);
      ReleasedTable(inodes, next);
      TakenReleases(next, mine, cmds[1..]);
      OnlyReleasedOn(inodes, next, TakenInodes(inodes, mine, cmds));
    }
  }

  lemma {:induction false} ReleasedReleases(inodes: seq<Inode>, fds: seq<Fd>)
    requires Table(inodes) && forall j :: 0 <= j < |fds| ==> InRange(fds[j])
    ensures OnlyReleased(inodes, ReleasedInodes(inodes, fds))
    decreases |fds|
  {
    hide OnlyReleased, DropInodes;
    if fds == [] {
      SameReleases(inodes);
    } else {
      var next := DropInodes(inodes, fds[0]);
      DropReleases(inodes, fds[0]);
      ReleasedTable(inodes, next);
      ReleasedReleases(next, fds[1..]);
      OnlyReleasedOn(inodes, next, ReleasedInodes(inodes, fds));
    }
  }

  lemma SameReleases(inodes: seq<Inode>)
    requires Table(inodes)
    ensures OnlyReleased(inodes, inodes)
  {
  }

  lemma ReleasedTable(a: seq<Inode>, b: seq<Inode>)
    requires OnlyReleased(a, b)
    ensures Table(b)
  {
  }

  /** A new entry is a live inode. */
  lemma InsertSound(inodes: seq<Inode>, p: nat, name: string, kind: FileType, head: nat)
    requires Sound(inodes) && p < NUM_INODES && CanHold(inodes[p], name)
    requires Lookup(inodes, p, name, true) == Missing
    requires kind != Unallocated && (kind == Directory ==> head == 0)
    ensures Sound(Insert(inodes, p, name, kind, head).1)
  {
    hide Lookup, WellFormed;
    SoundTable(inodes);
    InsertKeeps(inodes, p, name, kind, head);
    var r, n := Insert(inodes, p, name, kind, head).1, FirstFree(inodes, 0);
    RootTaken(inodes);
    if n < NUM_INODES {
      forall x | 0 < x < NUM_INODES && Listed(r, x) ensures r[x].valid {
        if x != n {
          AddedListed(inodes, p, n, r[n], x);
        }
      }
    }
  }

  lemma RootTaken(inodes: seq<Inode>)
    requires WellFormed(inodes)
    ensures inodes[0].ftype == Directory
  {
  }

  lemma AddedListed(inodes: seq<Inode>, p: nat, n: nat, ino: Inode, x: nat)
    requires WellFormed(inodes) && p < NUM_INODES && n < NUM_INODES && p != n
    requires inodes[p].ftype == Directory && inodes[p].head < NDIRECT && |ino.slots| == NDIRECT
    requires inodes[n].ftype == Unallocated && (ino.ftype == Directory ==> ino.head == 0) && ino.parent == p
    requires 0 < x < NUM_INODES && x != n && Listed(AddEntry(inodes, p, n, ino), x)
    ensures Listed(inodes, x)
  {
    var r := AddEntry(inodes, p, n, ino);
    var d := inodes[x].parent;
    if d == p {
      assert Entries(r[p]) == Entries(inodes[p]) + [n];
    }
  }

  lemma RetargetSound(inodes: seq<Inode>, l: nat, target: nat)
    requires Sound(inodes) && l < NUM_INODES && inodes[l].ftype == Symlink
    ensures Sound(inodes[l := inodes[l].(head := target)])
  {
    assert SameTree(inodes, inodes[l := inodes[l].(head := target)]);
    SameTreeKeeps(inodes, inodes[l := inodes[l].(head := target)]);
  }

  lemma CreateSound(inodes: seq<Inode>, cwd: nat, path: string, name: string, kind: FileType)
    requires Sound(inodes) && cwd < NUM_INODES && (kind == File || kind == Directory)
    ensures Sound(Create(inodes, cwd, path, name, kind).1)
  {
    hide Lookup, Sound, WellFormed, Insert;
    SoundTable(inodes);
    var p := Lookup(inodes, cwd, path, true);
    if p.Found? && CanHold(inodes[p.idx], name) && Lookup(inodes, p.idx, name, true) == Missing {
      InsertSound(inodes, p.idx, name, kind, 0);
    }
  }

  lemma SoundTable(inodes: seq<Inode>)
    requires Sound(inodes)
    ensures WellFormed(inodes) && Table(inodes)
  {
  }

  lemma LinkSound(inodes: seq<Inode>, cwd: nat, target: string, dir: string, name: string)
    requires Sound(inodes) && cwd < NUM_INODES
    ensures Sound(Link(inodes, cwd, target, dir, name).1)
  {
    hide Lookup, Sound, WellFormed, Insert;
    SoundTable(inodes);
    var t, p := Lookup(inodes, cwd, target, true), Lookup(inodes, cwd, dir, true);
    if t.Found? && p.Found? && CanHold(inodes[p.idx], name) {
      var there := Lookup(inodes, p.idx, name, true);
      if there.Missing? {
        InsertSound(inodes, p.idx, name, Symlink, t.idx);
      } else if there.Found? && inodes[there.idx].ftype == Symlink {
        RetargetSound(inodes, there.idx, t.idx);
      }
    }
  }

  /** Deleting an inode other than the root, listed or orphaned. */
  lemma DeleteSound(inodes: seq<Inode>, mid: seq<Inode>, inodes': seq<Inode>, x: nat)
    requires Sound(inodes) && DeletedAs(inodes, mid, inodes', x) && x != 0
    ensures Sound(inodes')
  {
    hide Lookup, LegalName, Without;
    if Listed(inodes, x) {
      DeleteKeeps(inodes, mid, x);
      forall y | 0 < y < NUM_INODES && Listed(inodes', y) ensures inodes'[y].valid {
        DeletedListed(inodes, mid, inodes', x, y);
      }
    } else {
      OrphanSameTree(inodes, mid, inodes', x);
      SameTreeKeeps(inodes, inodes');
    }
  }

  lemma DeletedListed(inodes: seq<Inode>, mid: seq<Inode>, inodes': seq<Inode>, x: nat, y: nat)
    requires Sound(inodes) && DeletedAs(inodes, mid, inodes', x) && Listed(inodes, x)
    requires 0 < y < NUM_INODES && Listed(inodes', y)
    ensures y != x && Listed(inodes, y)
  {
    hide LegalName;
  }

  lemma OrphanSameTree(inodes: seq<Inode>, mid: seq<Inode>, inodes': seq<Inode>, x: nat)
    requires Sound(inodes) && DeletedAs(inodes, mid, inodes', x) && x != 0 && !Listed(inodes, x)
    ensures SameTree(inodes, inodes')
  {
    hide LegalName;
  }

  /** Deleting the root unlinks it from nothing and frees or marks it. */
  lemma RootDeleteUnsound(inodes: seq<Inode>, mid: seq<Inode>, inodes': seq<Inode>)
    requires Table(inodes) && DeletedAs(inodes, mid, inodes', 0)
    ensures !Sound(inodes')
  {
  }

  // ----------------------------------------------------------------- whole runs

  /** A call that deletes the root: its path names the root, which is empty and can be unlinked. */
  ghost predicate DropsRoot(s: KernelState, call: Call)
    requires RefOk(s)
  {
    call.Delete? && LiveState(s.st) && Named(s, call.path) == Found(0) && DeleteResult(s.inodes, Found(0)) == Ret(0)
  }

  /** A step keeps the tree sound exactly when it does not delete the root. */
  lemma StepSound(s: KernelState, call: Call, res: Option<SysResult>, s': KernelState)
    requires RefOk(s) && CallOk(call) && KernelRuns.Step(s, call, res, s') && Sound(s.inodes)
    ensures Sound(s'.inodes) <==> !DropsRoot(s, call)
  {
    hide Lookup, Sound, Tally, Schedule, OnlyReleased, SameTree;
    if call.Switch? || !LiveState(s.st) {
      return;
    }
    var me := s.st.procs[s.st.cur];
    match call {
      case CreateAt(path, name, kind) => CreateSound(s.inodes, me.cwd, path, name, kind);
      case LinkAt(target, dir, name) => LinkSound(s.inodes, me.cwd, target, dir, name);
      case Delete(path) => DeleteStepSound(s, Named(s, path), res.value, s');
      case MakePipe =>
      case Cd(_) =>
      case WaitFor(_) =>
      case BlockOnStdin =>
      case BlockOnPipe(_) =>
      case Open(path, mode) => ReleaseStepSound(s, call, res.value, s');
      case Close(fd) => ReleaseStepSound(s, call, res.value, s');
      case SpawnProc(_, _, _) => ReleaseStepSound(s, call, res.value, s');
      case ExitWith(code) => ReleaseStepSound(s, call, res.value, s');
    }
  }

  lemma DeleteStepSound(s: KernelState, found: Resolution, res: SysResult, s': KernelState)
    requires RefOk(s) && Sound(s.inodes) && (found.Found? ==> found.idx < NUM_INODES)
    requires DidDelete(s, found, res, s')
    ensures Sound(s'.inodes) <==> !(found == Found(0) && DeleteResult(s.inodes, found) == Ret(0))
  {
    hide Sound, Tally;
    if res == Ret(0) {
      var mid :| DeletedAs(s.inodes, mid, s'.inodes, found.idx);
      if found.idx == 0 {
        RootDeleteUnsound(s.inodes, mid, s'.inodes);
      } else {
        DeleteSound(s.inodes, mid, s'.inodes, found.idx);
      }
    }
  }

  /** The calls on descriptors only count and uncount. */
  lemma ReleaseStepSound(s: KernelState, call: Call, res: SysResult, s': KernelState)
    requires RefOk(s) && LiveState(s.st) && CallOk(call) && Sound(s.inodes)
    requires call.Open? || call.Close? || call.SpawnProc? || call.ExitWith?
    requires Did(s, call, res, s')
    ensures Sound(s'.inodes)
  {
    hide Lookup, Sound, Tally, SameTree, TakenInodes, ReleasedInodes;
    var fds := s.st.procs[s.st.cur].fds;
    SameReleases(s.inodes);
    match call {
      case Open(_, _) =>
      case Close(fd) =>
        if fd < MAX_FDS {
          DropReleases(s.inodes, fds[fd]);
        }
      case SpawnProc(_, _, cmds) => TakenReleases(s.inodes, fds, cmds);
      case ExitWith(_) => ReleasedReleases(s.inodes, fds);
    }
    assert OnlyReleased(s.inodes, s'.inodes);
    ReleasedIsSameTree(s.inodes, s'.inodes);
    SameTreeKeeps(s.inodes, s'.inodes);
  }

  ghost predicate SoundUpTo(trace: seq<KernelState>, n: nat)
    requires n < |trace|
  {
    forall k :: 0 <= k <= n ==> Sound(trace[k].inodes)
  }

  /** None of the first `n` calls deletes the root. */
  ghost predicate RootSpared(trace: seq<KernelState>, calls: seq<Call>, n: nat)
    requires n <= |calls| && n < |trace| && forall k :: 0 <= k < |trace| ==> RefOk(trace[k])
  {
    forall k :: 0 <= k < n ==> !DropsRoot(trace[k], calls[k])
  }

  /** Over every run: all states up to the nth have a sound tree exactly when no call before it deletes the root. */
  lemma {:induction false} RunSound(calls: seq<Call>, results: seq<Option<SysResult>>, trace: seq<KernelState>, n: nat)
    requires Ran(calls, results, trace) && Sound(trace[0].inodes) && n <= |calls|
    ensures SoundUpTo(trace, n) <==> RootSpared(trace, calls, n)
  {
    hide RefOk, KernelRuns.Step, DropsRoot, Sound;
    if n > 0 {
      RunSound(calls, results, trace, n - 1);
      if Sound(trace[n - 1].inodes) {
        StepSound(trace[n - 1], calls[n - 1], results[n - 1], trace[n]);
      }
    }
  }

  lemma RanStates(calls: seq<Call>, results: seq<Option<SysResult>>, trace: seq<KernelState>)
    requires Ran(calls, results, trace)
    ensures |trace| == |calls| + 1 && forall k :: 0 <= k < |trace| ==> RefOk(trace[k])
  {
  }

  /** What mkfs writes is a sound tree in which nothing is open. */
  lemma FreshImage(inodes: seq<Inode>)
    requires WellFormed(inodes) && MkFs.AllLive(inodes)
    ensures Sound(inodes) && Unreferenced(inodes) && Table(inodes)
  {
    hide LegalName;
    forall x | 0 < x < NUM_INODES && Listed(inodes, x) ensures inodes[x].valid {
      var d := inodes[x].parent;
      var k :| 0 <= k < inodes[d].head && Entries(inodes[d])[k] == x;
      EntryListed(inodes, d, k);
      assert MkFs.Live(inodes[x]);
    }
    forall i | 0 <= i < NUM_INODES ensures inodes[i].refs == 0 {
      assert MkFs.Live(inodes[i]);
    }
    assert MkFs.Live(inodes[0]);
  }

  /**
   * From the host tree to a running system: build the image, boot on it and run any calls.  Every
   * state keeps the counts, and the tree stays sound exactly until a call deletes the root.
   */
  method BuildBootRun(tree: MkFs.Node, fsDir: string, table: seq<Byte>, calls: seq<Call>)
    returns (k: Kernel, results: seq<Option<SysResult>>, ghost trace: seq<KernelState>, ghost disk: seq<Byte>)
    requires |table| == NUM_INODE_BLOCKS * BLOCK_SIZE
    requires tree.HostDir? && MkFs.Legal(MkFs.Pruned(tree, fsDir))
    requires MkFs.NodeCount(MkFs.Pruned(tree, fsDir)) <= NUM_INODES
    requires FIRST_DATA_BLOCK + MkFs.BlockCount(MkFs.Pruned(tree, fsDir)) <= NUM_BLOCKS
    requires forall i :: 0 <= i < |calls| ==> CallOk(calls[i])
    ensures Ran(calls, results, trace) && trace[|calls|] == k.View()
    ensures trace[0].pipes == NoPipes() && trace[0].st == WaitProtocol.BOOTED && Sound(trace[0].inodes)
    ensures |disk| == FileData.DISK_SIZE && var held := MkFs.Pruned(tree, fsDir);
            MkFs.Laid(trace[0].inodes, disk, 0, held, MkFs.NodeCount(held),
                      FIRST_DATA_BLOCK, FIRST_DATA_BLOCK + MkFs.BlockCount(held))
    ensures forall i :: 0 <= i < |trace| ==> CountsExact(trace[i])
    ensures forall n :: 0 <= n <= |calls| ==> (SoundUpTo(trace, n) <==> RootSpared(trace, calls, n))
  {
    hide MkFs.Laid, MkFs.Legal, MkFs.NodeCount, MkFs.BlockCount, MkFs.Pruned, MkFs.FilesApart, MkFs.AllLive,
         MkFs.BitmapBlock, WellFormed, Table, Sound, Unreferenced, Ran, RefOk, CountsExact, SoundUpTo, RootSpared;
    var builder := new MkFs.Builder(fsDir, table);
    builder.Build(tree);
    disk := builder.Image();
    FreshImage(builder.inodes);
    var fs := new InodeTable(builder.inodes);
    k, results, trace := BootAndRun(fs, calls);
    RanStates(calls, results, trace);
    forall n | 0 <= n <= |calls| ensures SoundUpTo(trace, n) <==> RootSpared(trace, calls, n) {
      RunSound(calls, results, trace, n);
    }
  }
}
