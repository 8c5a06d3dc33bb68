/**
 * The end of a process: giving back its frames (kernel/src/cleanup.c), and what holds over every
 * run of starting processes, moving breaks and ending processes.
 */
module Cleanup {
  import opened PageAlloc
  import opened Paging
  import opened AddressSpace

  /** The walk over directory entries and table entries has passed this slot when it is at `(i, j)`. */
  ghost predicate Passed(slot: Slot, p: nat, i: nat, j: nat) {
    slot.p == p && !slot.Root? && (slot.i < i || (slot.i == i && slot.Page? && slot.j < j))
  }

  /** The frames of process `p` in the slots passed. */
  ghost function Freed(owner: Owner, p: nat, i: nat, j: nat): (fs: set<nat>) {
    set f | f in owner && Passed(owner[f], p, i, j)
  }

  /** All frames of process `p` except its directory. */
  ghost function Held(owner: Owner, p: nat): (fs: set<nat>) {
    set f | f in owner && owner[f].p == p && !owner[f].Root?
  }

  ghost function Without(owner: Owner, p: nat): (r: Owner) {
    map g | g in owner && owner[g].p != p :: owner[g]
  }

  lemma FrameUsed(s: State, all: set<nat>, p: nat, f: nat)
    requires Consistent(s, all, p) && f in s.owner
    ensures f in all && f < PAGES && f >= LOWEST_FRAME && f !in s.free && UsedAt(s.dirs, s.mem, s.owner[f], f)
  {
  }

  /** One table entry: it is empty, or it holds a frame in use that no entry before it holds. */
  lemma PagePassed(s: State, all: set<nat>, p: nat, i: nat, j: nat)
    requires Consistent(s, all, p) && p in s.dirs && |s.dirs[p]| == LEN
    requires i < USER_TABLES && j < LEN && s.dirs[p][i] != 0
    ensures var t := Frame(s.dirs[p][i]);
            && t in s.mem && |s.mem[t]| == LEN
            && var f := Frame(s.mem[t][j]);
               if f == 0 then Freed(s.owner, p, i, j + 1) == Freed(s.owner, p, i, j)
               else && f < PAGES && f !in s.free + Freed(s.owner, p, i, j)
                    && Freed(s.owner, p, i, j + 1) == Freed(s.owner, p, i, j) + {f}
  {
    TableOwned(s, all, p, i);
    var t := Frame(s.dirs[p][i]);
    var f := Frame(s.mem[t][j]);
    assert PageOk(s.mem[t], s.owner, p, i, j);
    hide Consistent;
    forall g | g in s.owner && s.owner[g] == Page(p, i, j) ensures g == f && f != 0 {
      FrameUsed(s, all, p, g);
    }
    if f != 0 {
      FrameUsed(s, all, p, f);
    }
  }

  /** One directory entry, after its table's entries. */
  lemma TablePassed(s: State, all: set<nat>, p: nat, i: nat)
    requires Consistent(s, all, p) && p in s.dirs && |s.dirs[p]| == LEN && i < USER_TABLES
    ensures var f := Frame(s.dirs[p][i]);
            if f == 0 then s.dirs[p][i] == 0 && Freed(s.owner, p, i + 1, 0) == Freed(s.owner, p, i, 0)
            else && s.dirs[p][i] != 0 && f < PAGES && f !in s.free + Freed(s.owner, p, i, LEN)
                 && Freed(s.owner, p, i + 1, 0) == Freed(s.owner, p, i, LEN) + {f}
  {
    assert DirOk(s.dirs[p], s.mem, s.owner, p) && DirEntryOk(s.dirs[p], s.mem, s.owner, p, i);
    var f := Frame(s.dirs[p][i]);
    if f != 0 {
      TableOwned(s, all, p, i);
      FrameUsed(s, all, p, f);
    }
    hide Consistent;
    forall g | g in s.owner && Passed(s.owner[g], p, i + 1, 0) && !Passed(s.owner[g], p, i, LEN)
      ensures g == f && f != 0
    {
      FrameUsed(s, all, p, g);
    }
    forall g | g in s.owner && Passed(s.owner[g], p, i + 1, 0) && !Passed(s.owner[g], p, i, 0)
      ensures f != 0
    {
      FrameUsed(s, all, p, g);
    }
  }

  lemma WalkEnds(s: State, all: set<nat>, p: nat)
    requires Consistent(s, all, p)
    ensures Freed(s.owner, p, 0, 0) == {} && Freed(s.owner, p, USER_TABLES, 0) == Held(s.owner, p)
  {
    hide Consistent;
    forall g | g in Held(s.owner, p) ensures Passed(s.owner[g], p, USER_TABLES, 0) {
      FrameUsed(s, all, p, g);
    }
  }

  /** The frames of `p` go: its directory is lost, all others are free. */
  ghost function Gone(s: State, p: nat): (s': State)
    requires p in s.cr3
  {
    State(s.dirs - {p}, s.mem, Without(s.owner, p), s.cr3 - {p}, s.free + Held(s.owner, p), s.leaked + {s.cr3[p]})
  }

  lemma AccountsGone(s: State, all: set<nat>, p: nat)
    requires Accounted(s, all) && RootsOk(s, 0) && p in s.cr3
    ensures Accounted(Gone(s, p), all) && s.cr3[p] !in s.leaked
  {
    var s' := Gone(s, p);
    forall f | f in s.owner ensures f in s'.owner || f in s'.free || f in s'.leaked {
      if s.owner[f].p == p && s.owner[f].Root? {
        assert s.cr3[p] == f;
      }
    }
  }

  lemma RootsGone(s: State, p: nat)
    requires RootsOk(s, 0) && Settled(s) && p in s.cr3
    ensures RootsOk(Gone(s, p), 0) && Settled(Gone(s, p))
  {
    hide Held;
    assert Gone(s, p).dirs.Keys == s.dirs.Keys - {p} && Gone(s, p).cr3.Keys == s.cr3.Keys - {p};
  }

  lemma ProcessGone(s: State, all: set<nat>, p: nat)
    requires Consistent(s, all, 0) && Settled(s) && p in s.cr3
    ensures s.cr3[p] !in s.leaked && Consistent(Gone(s, p), all, 0) && Settled(Gone(s, p))
  {
    AccountsGone(s, all, p);
    RootsGone(s, p);
    DropProcess(s.dirs, s.mem, s.owner, p);
    hide Frames, Accounted, RootsOk, Settled, Held;
  }

  /** The inner loop: all pages of the table behind entry `i`, then the table.  Every one was in use. */
  method FreeTable(pages: PageAllocator, mem: Mem, dir: Table, i: nat, ghost s: State, ghost all: set<nat>,
                   ghost p: nat)
    returns (allInUse: bool)
    requires pages.Valid() && Consistent(s, all, p) && p in s.dirs && s.dirs[p] == dir && s.mem == mem
    requires |dir| == LEN && i < USER_TABLES && Frame(dir[i]) != 0
    requires pages.Free() == s.free + Freed(s.owner, p, i, 0)
    modifies pages.words
    ensures pages.Valid() && allInUse && pages.Free() == s.free + Freed(s.owner, p, i + 1, 0)
  {
    hide Consistent, Freed;
    hide PageAllocator.Free;
    TablePassed(s, all, p, i);
    PagePassed(s, all, p, i, 0);
    var table := mem[Frame(dir[i])];
    allInUse := true;
    for j := 0 to LEN
      invariant pages.Valid() && allInUse && pages.Free() == s.free + Freed(s.owner, p, i, j)
    {
      PagePassed(s, all, p, i, j);
      if Frame(table[j]) != 0 {
        var inUse := pages.FreePage(Frame(table[j]));
        allInUse := allInUse && inUse;
      }
    }
    var inUse := pages.FreePage(Frame(dir[i]));
    allInUse := allInUse && inUse;
  }

  /** The outer loop, over the user half of the directory. */
  method FreeUserSpace(pages: PageAllocator, mem: Mem, dir: Table, ghost s: State, ghost all: set<nat>, ghost p: nat)
    returns (allInUse: bool)
    requires pages.Valid() && Consistent(s, all, p) && p in s.dirs && s.dirs[p] == dir && s.mem == mem
    requires |dir| == LEN && pages.Free() == s.free
    modifies pages.words
    ensures pages.Valid() && allInUse && pages.Free() == s.free + Held(s.owner, p)
  {
    hide Consistent, Freed, Held;
    hide PageAllocator.Free;
    WalkEnds(s, all, p);
    allInUse := true;
    for i := 0 to USER_TABLES
      invariant pages.Valid() && allInUse && pages.Free() == s.free + Freed(s.owner, p, i, 0)
    {
      TablePassed(s, all, p, i);
      if Frame(dir[i]) != 0 {
        var inUse := FreeTable(pages, mem, dir, i, s, all, p);
        allInUse := allInUse && inUse;
      }
    }
  }

  /**
   * The page part of `cleanup_proc`.  Every frame of the process except its directory becomes
   * free, each exactly once, and no frame of anyone else does.  The last call passes the address
   * of the directory where a page number is wanted: that number lies outside the map of pages,
   * so the directory's frame is lost.
   */
  method CleanupProc(vm: Vm, p: nat) returns (allInUse: bool)
    requires vm.Valid() && p in vm.cr3
    modifies vm`dirs, vm`owner, vm`leaked, vm`cr3, vm`brk, vm.pages.words
    ensures vm.Valid() && allInUse && vm.cr3 == old(vm.cr3) - {p} && vm.brk == old(vm.brk) - {p}
    ensures vm.dirs == old(vm.dirs) - {p} && vm.owner == Without(old(vm.owner), p)
    ensures vm.pages.Free() == old(vm.pages.Free()) + Held(old(vm.owner), p)
    ensures old(vm.cr3)[p] !in old(vm.leaked) && vm.leaked == old(vm.leaked) + {old(vm.cr3)[p]}
    ensures old(vm.cr3)[p] * PGSIZE >= PAGES
  {
    hide Consistent, Settled, Held, Without;
    hide PageAllocator.Free;
    ghost var s, all := vm.View(), vm.all;
    AnyProcess(s, all, 0, p);
    DirLen(s, all, p);
    ProcessGone(s, all, p);
    RootFrame(s, all, p);
    var dir := vm.mem[vm.cr3[p]];
    allInUse := FreeUserSpace(vm.pages, vm.mem, dir, s, all, p);
    vm.dirs, vm.owner, vm.leaked := vm.dirs - {p}, Without(vm.owner, p), vm.leaked + {vm.cr3[p]};
    vm.cr3, vm.brk := vm.cr3 - {p}, vm.brk - {p};
    assert vm.View() == Gone(s, p);
  }

  lemma RootFrame(s: State, all: set<nat>, p: nat)
    requires Consistent(s, all, p) && p in s.cr3
    ensures s.cr3[p] >= LOWEST_FRAME && s.cr3[p] * PGSIZE >= PAGES
  {
    FrameUsed(s, all, p, s.cr3[p]);
  }

  // ---------------------------------------------------------------- every run

  datatype Event =
    | Start(segs: seq<Segment>, kernelDir: Table, argLen: nat)
    | Sbrk(delta: int)
    | End

  /** The event is one the kernel can carry out for process `p`. */
  predicate Possible(cr3: map<nat, nat>, brk: map<nat, nat>, p: nat, e: Event) {
    match e
    case Start(segs, kernelDir, argLen) =>
      p !in cr3 && |kernelDir| == LEN && ExecInRange(segs, argLen)
    case Sbrk(delta) => p in cr3 && SbrkInRange(brk, p, delta)
    case End => p in cr3
  }

  /** Frames the event may take. */
  function Need(e: Event): (n: nat) {
    match e
    case Start(segs, _, argLen) => ExecFrames(segs, argLen)
    case Sbrk(delta) => SbrkFrames(delta)
    case End => 0
  }

  /** Every process has its heap mapped up to its break; `exact`: and no further. */
  ghost predicate HeapsOk(dirs: Dirs, mem: Mem, brk: map<nat, nat>, exact: bool) {
    forall q :: q in brk ==> q in dirs && HeapAt(dirs[q], mem, brk[q], exact)
  }

  ghost predicate HeapAt(dir: Table, mem: Mem, brk: nat, exact: bool) {
    brk % PGSIZE == 0 && HeapLow(dir, mem, brk / PGSIZE) && (exact ==> HeapUpTo(dir, mem, brk / PGSIZE))
  }

  lemma HeapsOkAfter(dirs: Dirs, mem: Mem, brk: map<nat, nat>, dirs': Dirs, mem': Mem, brk': map<nat, nat>, p: nat,
                     exact: bool)
    requires HeapsOk(dirs, mem, brk, exact) && SpacesKept(dirs, mem, dirs', mem', p)
    requires brk'.Keys <= dirs'.Keys && brk'.Keys - {p} <= brk.Keys
    requires forall q :: q in brk' && q != p ==> brk'[q] == brk[q]
    requires p in brk' ==> HeapAt(dirs'[p], mem', brk'[p], exact)
    ensures HeapsOk(dirs', mem', brk', exact)
  {
    hide HeapUpTo, HeapLow, SameSpace;
    forall q | q in brk' ensures HeapAt(dirs'[q], mem', brk'[q], exact) {
      if q != p {
        SameSpaceMeans(dirs[q], mem, dirs'[q], mem', brk[q] / PGSIZE);
      }
    }
  }

  /** The event starts no program with segments above the heap base. */
  predicate Tidy(e: Event) {
    e.Start? ==> BelowHeap(e.segs)
  }

  /** Page tables, frames and breaks of all processes. */
  datatype Machine = Machine(s: State, brk: map<nat, nat>)

  /** Every frame is free, lost or used in one place, and every heap is in order. */
  ghost predicate MachineOk(m: Machine, all: set<nat>, exact: bool) {
    && Consistent(m.s, all, 0) && Settled(m.s) && m.brk.Keys == m.s.cr3.Keys
    && HeapsOk(m.s.dirs, m.s.mem, m.brk, exact)
  }

  /** The kernel can carry the event out and has the frames for it. */
  ghost predicate Enabled(m: Machine, p: nat, e: Event) {
    Possible(m.s.cr3, m.brk, p, e) && |m.s.free| >= Need(e)
  }

  /** What the event did; in each case the other processes keep their address spaces. */
  ghost predicate Did(m: Machine, p: nat, e: Event, m': Machine) {
    && SpacesKept(m.s.dirs, m.s.mem, m'.s.dirs, m'.s.mem, p)
    && match e
       case Start(segs, _, argLen) =>
         && m'.s.cr3.Keys == m.s.cr3.Keys + {p} && Rounded(argLen) >= 0
         && m'.brk == m.brk[p := HEAP_BASE + Rounded(argLen)]
         && p in m'.s.dirs && MappedPages(m'.s.dirs[p], m'.s.mem) == ProgramPages(segs, m'.brk[p] / PGSIZE)
         && |m'.s.leaked| == |m.s.leaked| + Overlap(segs, m'.brk[p] / PGSIZE)
         && (Tidy(e) ==> m'.s.leaked == m.s.leaked)
       case Sbrk(delta) =>
         && m'.s.cr3 == m.s.cr3 && BrkMoved(m.brk, m'.brk, p, delta)
         && HeapOnly(m.s.dirs, m.s.mem, m'.s.dirs, m'.s.mem, p)
       case End =>
         p in m.s.cr3 && m.s.cr3[p] !in m.s.leaked && m'.s == Gone(m.s, p) && m'.brk == m.brk - {p}
  }

  /** An event that is enabled is carried out; any other is left out. */
  ghost predicate Step(m: Machine, p: nat, e: Event, m': Machine) {
    if Enabled(m, p, e) then Did(m, p, e, m') else m' == m
  }

  /** One state before each event and one at the end, all of them in order. */
  ghost predicate Ran(all: set<nat>, events: seq<(nat, Event)>, trace: seq<Machine>, exact: bool) {
    && |trace| == |events| + 1
    && (forall k :: 0 <= k < |trace| ==> MachineOk(trace[k], all, exact))
    && (forall k :: 0 <= k < |events| ==> Step(trace[k], events[k].0, events[k].1, trace[k + 1]))
  }

  lemma RanOn(all: set<nat>, events: seq<(nat, Event)>, trace: seq<Machine>, exact: bool, p: nat, e: Event, m: Machine)
    requires Ran(all, events, trace, exact) && MachineOk(m, all, exact) && Step(trace[|events|], p, e, m)
    ensures Ran(all, events + [(p, e)], trace + [m], exact)
  {
    hide MachineOk, Step;
    var events', trace' := events + [(p, e)], trace + [m];
    forall k | 0 <= k < |events'| ensures Step(trace'[k], events'[k].0, events'[k].1, trace'[k + 1]) {
      assert k < |events| ==> Step(trace[k], events[k].0, events[k].1, trace[k + 1]);
    }
  }

  ghost function Snapshot(vm: Vm): (m: Machine)
    requires vm.pages.Valid()
    reads vm, vm.pages, vm.pages.words
  {
    Machine(vm.View(), vm.brk)
  }

  method Perform(vm: Vm, p: nat, e: Event, ghost exact: bool)
    requires vm.Valid() && MachineOk(Snapshot(vm), vm.all, exact) && Enabled(Snapshot(vm), p, e) && (exact ==> Tidy(e))
    modifies vm`mem, vm`owner, vm`dirs, vm`leaked, vm`cr3, vm`brk, vm.pages`ptr, vm.pages.words
    ensures vm.Valid() && MachineOk(Snapshot(vm), vm.all, exact)
    ensures Did(old(Snapshot(vm)), p, e, Snapshot(vm))
    ensures exact ==> |vm.leaked| == |old(vm.leaked)| + (if e.End? then 1 else 0)
  {
    hide Consistent, Settled, HeapsOk, SpacesKept, HeapUpTo, HeapLow, BelowHeap, ExecInRange, ExecFrames, SbrkInRange;
    hide SbrkFrames, HeapOnly, Rounded, MappedPages, ProgramPages, Overlap, BrkMoved, Gone;
    hide PageAllocator.Free;
    match e
    case Start(segs, kernelDir, argLen) => PerformStart(vm, p, segs, kernelDir, argLen, exact);
    case Sbrk(delta) => PerformSbrk(vm, p, delta, exact);
    case End => PerformEnd(vm, p, exact);
  }

  method PerformStart(vm: Vm, p: nat, segs: seq<Segment>, kernelDir: Table, argLen: nat, ghost exact: bool)
    requires vm.Valid() && HeapsOk(vm.dirs, vm.mem, vm.brk, exact) && (exact ==> BelowHeap(segs))
    requires p !in vm.cr3 && |kernelDir| == LEN && ExecAllowed(segs, argLen, |vm.pages.Free()|)
    modifies vm`mem, vm`owner, vm`dirs, vm`leaked, vm`cr3, vm`brk, vm.pages`ptr, vm.pages.words
    ensures vm.Valid() && HeapsOk(vm.dirs, vm.mem, vm.brk, exact)
    ensures Did(old(Snapshot(vm)), p, Start(segs, kernelDir, argLen), Snapshot(vm))
    ensures exact ==> vm.leaked == old(vm.leaked)
  {
    hide Consistent, HeapsOk, SpacesKept, HeapUpTo, HeapLow, BelowHeap, Rounded, MappedPages, ProgramPages, Overlap;
    hide PageAllocator.Free;
    ghost var dirs, mem, brk := vm.dirs, vm.mem, vm.brk;
    ArgPages(argLen);
    vm.Exec(p, segs, kernelDir, argLen);
    HeapsOkAfter(dirs, mem, brk, vm.dirs, vm.mem, vm.brk, p, exact);
  }

  method PerformSbrk(vm: Vm, p: nat, delta: int, ghost exact: bool)
    requires vm.Valid() && HeapsOk(vm.dirs, vm.mem, vm.brk, exact)
    requires p in vm.cr3 && SbrkAllowed(vm.brk, p, delta, |vm.pages.Free()|)
    modifies vm`mem, vm`owner, vm`dirs, vm`leaked, vm`brk, vm.pages`ptr, vm.pages.words
    ensures vm.Valid() && HeapsOk(vm.dirs, vm.mem, vm.brk, exact)
    ensures Did(old(Snapshot(vm)), p, Sbrk(delta), Snapshot(vm))
    ensures exact ==> vm.leaked == old(vm.leaked)
  {
    hide Consistent, HeapsOk, SpacesKept, HeapUpTo, HeapLow, HeapOnly, SbrkAllowed;
    hide PageAllocator.Free;
    ghost var dirs, mem, brk := vm.dirs, vm.mem, vm.brk;
    HeapInOrder(dirs, mem, brk, p, exact);
    vm.SbrkHelper(p, delta);
    HeapsOkAfter(dirs, mem, brk, vm.dirs, vm.mem, vm.brk, p, exact);
  }

  method PerformEnd(vm: Vm, p: nat, ghost exact: bool)
    requires vm.Valid() && HeapsOk(vm.dirs, vm.mem, vm.brk, exact) && p in vm.cr3
    modifies vm`dirs, vm`owner, vm`leaked, vm`cr3, vm`brk, vm.pages.words
    ensures vm.Valid() && HeapsOk(vm.dirs, vm.mem, vm.brk, exact)
    ensures Did(old(Snapshot(vm)), p, End, Snapshot(vm)) && |vm.leaked| == |old(vm.leaked)| + 1
  {
    hide Consistent, HeapsOk, SpacesKept, HeapUpTo, HeapLow, Held, Without;
    hide PageAllocator.Free;
    ghost var dirs, mem, brk := vm.dirs, vm.mem, vm.brk;
    SpacesSame(vm.View(), vm.all, p);
    var ok := CleanupProc(vm, p);
    HeapsOkAfter(dirs, mem, brk, vm.dirs, vm.mem, vm.brk, p, exact);
  }

  lemma HeapInOrder(dirs: Dirs, mem: Mem, brk: map<nat, nat>, p: nat, exact: bool)
    requires HeapsOk(dirs, mem, brk, exact) && p in brk
    ensures p in dirs && HeapAt(dirs[p], mem, brk[p], exact)
  {
  }

  /** When a process ends, memory keeps its contents. */
  lemma SpacesSame(s: State, all: set<nat>, p: nat)
    requires Consistent(s, all, 0) && Settled(s)
    ensures SpacesKept(s.dirs, s.mem, s.dirs - {p}, s.mem, p)
  {
    OthersSame(s.owner, s.mem, p);
    forall q | q in s.dirs && q != p ensures SameSpace(s.dirs[q], s.mem, s.dirs[q], s.mem) {
      AnyProcess(s, all, 0, q);
      OtherSpaceKept(s, all, s.owner, s.mem, p, q);
    }
  }

  /** How many processes ended. */
  ghost function EndCount(events: seq<(nat, Event)>, trace: seq<Machine>): (n: nat)
    requires |trace| == |events| + 1
    decreases |events|
  {
    if events == [] then 0
    else
      var k := |events| - 1;
      EndCount(events[..k], trace[..k + 1])
        + if events[k].1.End? && Enabled(trace[k], events[k].0, events[k].1) then 1 else 0
  }

  lemma EndCountOn(events: seq<(nat, Event)>, trace: seq<Machine>, p: nat, e: Event, m: Machine)
    requires |trace| == |events| + 1
    ensures EndCount(events + [(p, e)], trace + [m])
      == EndCount(events, trace) + if e.End? && Enabled(trace[|events|], p, e) then 1 else 0
  {
    hide Enabled;
    assert (events + [(p, e)])[..|events|] == events && (trace + [m])[..|events| + 1] == trace;
  }

  /**
   * Whatever is started, resized and ended, in any order and as often as frames allow: in every
   * state of the run each frame is free, lost, or used in exactly one place, and every heap is
   * mapped up to its break; each event that is enabled is carried out.  The others are passed
   * over: they lack frames or a process, or are outside this model, like a shrink at the heap
   * base.  Once no process is left, all frames that were not lost are free again.  If no program
   * has segments above the heap base, heaps end at their breaks and just the one directory frame
   * is lost at each ending.
   */
  method Run(vm: Vm, events: seq<(nat, Event)>) returns (ghost trace: seq<Machine>)
    requires vm.Valid() && vm.cr3 == map[] && vm.leaked == {}
    modifies vm`mem, vm`owner, vm`dirs, vm`leaked, vm`cr3, vm`brk, vm.pages`ptr, vm.pages.words
    ensures vm.Valid() && Ran(vm.all, events, trace, AllTidy(events))
    ensures trace[0] == old(Snapshot(vm)) && trace[|events|] == Snapshot(vm)
    ensures AllTidy(events) ==> |vm.leaked| == EndCount(events, trace)
    ensures vm.cr3 == map[] ==> vm.pages.Free() !! vm.leaked && vm.pages.Free() + vm.leaked == vm.all
  {
    hide Possible, Need, HeapsOk, Consistent, Settled, Tidy, Did, EndCount, Ran;
    hide PageAllocator.Free;
    ghost var exact := AllTidy(events);
    trace := [Snapshot(vm)];
    Nobody(Snapshot(vm), vm.all, exact);
    for k := 0 to |events|
      invariant vm.Valid() && |trace| == k + 1 && Ran(vm.all, events[..k], trace, exact)
      invariant trace[0] == old(Snapshot(vm)) && trace[k] == Snapshot(vm) && MachineOk(trace[k], vm.all, exact)
      invariant exact ==> |vm.leaked| == EndCount(events[..k], trace)
    {
      var (p, e) := events[k];
      var n := vm.pages.CountFree();
      if Possible(vm.cr3, vm.brk, p, e) && n >= Need(e) {
        Perform(vm, p, e, exact);
      }
      EndCountOn(events[..k], trace, p, e, Snapshot(vm));
      RanOn(vm.all, events[..k], trace, exact, p, e, Snapshot(vm));
      assert events[..k] + [(p, e)] == events[..k + 1];
      trace := trace + [Snapshot(vm)];
    }
    assert events[..|events|] == events;
    if vm.cr3 == map[] {
      NoneLeft(vm.View(), vm.all);
    }
  }

  ghost predicate AllTidy(events: seq<(nat, Event)>) {
    forall k :: 0 <= k < |events| ==> Tidy(events[k].1)
  }

  lemma Nobody(m: Machine, all: set<nat>, exact: bool)
    requires Consistent(m.s, all, 0) && Settled(m.s) && m.brk.Keys == m.s.cr3.Keys == {}
    ensures MachineOk(m, all, exact) && Ran(all, [], [m], exact) && EndCount([], [m]) == 0
  {
    hide Consistent;
  }

  ghost predicate OwnedByLive(s: State, f: nat) {
    f in s.owner && s.owner[f].p in s.dirs
  }

  lemma AllUsed(s: State, all: set<nat>)
    requires Consistent(s, all, 0)
    ensures forall f :: f in s.owner ==> OwnedByLive(s, f)
  {
    forall f | f in s.owner ensures OwnedByLive(s, f) {
      FrameUsed(s, all, 0, f);
    }
  }

  lemma NoneLeft(s: State, all: set<nat>)
    requires Consistent(s, all, 0) && Settled(s) && s.cr3 == map[]
    ensures s.free !! s.leaked && s.free + s.leaked == all
  {
    AllUsed(s, all);
    hide Frames, RootsOk;
  }
}
