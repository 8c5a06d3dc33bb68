/**
 * Address spaces: the mapping loops of `exec_helper` (kernel/src/exec.c) and `sbrk_helper`
 * (kernel/src/syscall.c) over the page allocator.
 * The temporary mapping window is selecting a frame's contents in `mem`.
 */
module AddressSpace {
  import opened PageAlloc
  import opened Paging

  const HEAP_PAGE: nat := 0x80000       // 0x80000000 / PGSIZE
  const HEAP_LIMIT: nat := STACK_TABLE * LEN
  const USER_PAGES: nat := USER_TABLES * LEN
  const LOWEST_FRAME: nat := 256        // memory below 1 MiB is never handed out

  /**
   * The heap of a directory ends at page `n`: a heap page is mapped exactly when it lies below
   * `n`, and a heap table exists exactly when its region starts below `n`.
   */
  ghost predicate HeapUpTo(dir: Table, mem: Mem, n: nat) {
    && |dir| == LEN && HEAP_PAGE <= n <= HEAP_LIMIT
    && forall i :: HEAP_PAGE / LEN <= i < STACK_TABLE ==> HeapTableOk(dir, mem, n, i)
  }

  ghost predicate HeapTableOk(dir: Table, mem: Mem, n: nat, i: nat)
    requires i < |dir|
  {
    && (dir[i] != 0 <==> i * LEN < n)
    && (dir[i] != 0 ==> Frame(dir[i]) in mem && |mem[Frame(dir[i])]| == LEN
                        && forall j :: 0 <= j < LEN ==> (mem[Frame(dir[i])][j] != 0 <==> i * LEN + j < n))
  }

  // ------------------------------------------------------------ break arithmetic

  const HEAP_BASE: nat := 0x8000_0000
  const U32: nat := 0x1_0000_0000

  /** C's division, towards zero. */
  function TruncDiv(a: int, b: nat): (r: int)
    requires b > 0
  {
    if a >= 0 then a / b else -((-a) / b)
  }

  /** Line 237: round the requested change to whole pages. */
  function Rounded(delta: int): (r: int) {
    TruncDiv(delta + PGSIZE - 1, PGSIZE) * PGSIZE
  }

  /** Line 249: the clamp, with u32 `max` and back to i32. */
  function Clamped(d: int, brk: nat): (r: int) {
    var a, b := d % U32, (HEAP_BASE - brk) % U32;
    var m := if a > b then a else b;
    if m < 0x8000_0000 then m else m - U32
  }

  /** How far `sbrk_helper` moves the break. */
  function SbrkDelta(delta: int, brk: nat): (r: int) {
    if Rounded(delta) >= 0 then Rounded(delta) else Clamped(Rounded(delta), brk)
  }

  /** A shrink is cut off at the heap base if and only if the break is above the base. */
  lemma ClampBites(d: int, brk: nat)
    requires -0x8000_0000 <= d < 0 && HEAP_BASE <= brk < U32
    ensures Clamped(d, brk) == (if d > HEAP_BASE - brk then d else HEAP_BASE - brk) <==> brk > HEAP_BASE
    ensures brk == HEAP_BASE ==> Clamped(d, brk) == d
  {
  }

  /** Growing rounds up to whole pages, but shrinking by the same amount always keeps at least one of them. */
  lemma ShrinkKeepsPage(delta: int)
    requires delta > 0
    ensures delta <= Rounded(delta) < delta + PGSIZE && Rounded(delta) % PGSIZE == 0
    ensures Rounded(-delta) <= 0 && Rounded(-delta) % PGSIZE == 0
    ensures Rounded(delta) + Rounded(-delta) >= PGSIZE
  {
  }

  /** The memory state as one value. */
  datatype State = State(dirs: Dirs, mem: Mem, owner: Owner, cr3: map<nat, nat>, free: set<nat>, leaked: set<nat>)

  /** Owned, free and leaked frames make up the frames of the machine, without overlap. */
  ghost predicate Accounted(s: State, all: set<nat>) {
    && (forall f :: f in all ==> LOWEST_FRAME <= f < PAGES)
    && s.owner.Keys !! s.free && s.leaked !! s.free && s.leaked !! s.owner.Keys
    && s.owner.Keys + s.free + s.leaked == all
  }

  /**
   * Every process owns its directory frame; and the directories in memory are up to date, except
   * that of process `p`, which a mapping loop keeps in a kernel buffer and writes back at its end.
   */
  ghost predicate RootsOk(s: State, p: nat) {
    && s.cr3.Keys + {p} >= s.dirs.Keys >= s.cr3.Keys
    && (forall q :: q in s.cr3 ==> s.cr3[q] in s.owner && s.owner[s.cr3[q]] == Root(q))
    && (forall f :: f in s.owner && s.owner[f].Root? ==> s.owner[f].p in s.cr3 && s.cr3[s.owner[f].p] == f)
    && (forall q :: q in s.cr3 && q != p ==> s.cr3[q] in s.mem && s.mem[s.cr3[q]] == s.dirs[q])
  }

  /** Between mapping loops every directory is in memory. */
  ghost predicate Settled(s: State) {
    && s.dirs.Keys == s.cr3.Keys
    && forall q :: q in s.cr3 ==> s.cr3[q] in s.mem && s.mem[s.cr3[q]] == s.dirs[q]
  }

  ghost predicate Consistent(s: State, all: set<nat>, p: nat) {
    Frames(s.dirs, s.mem, s.owner) && Accounted(s, all) && RootsOk(s, p)
  }

  lemma FrameTaken(s: State, s': State, all: set<nat>, f: nat, slot: Slot)
    requires Accounted(s, all) && f in s.free
    requires s'.owner == s.owner[f := slot] && s'.free == s.free - {f} && s'.leaked == s.leaked
    ensures Accounted(s', all) && f !in s.owner && f in all && LOWEST_FRAME <= f < PAGES
  {
  }

  lemma FrameGiven(s: State, s': State, all: set<nat>, f: nat, toFree: bool)
    requires Accounted(s, all) && f in s.owner && s'.owner == s.owner - {f}
    requires if toFree then s'.free == s.free + {f} && s'.leaked == s.leaked
             else s'.free == s.free && s'.leaked == s.leaked + {f}
    ensures Accounted(s', all) && f !in s.free && f !in s.leaked && f in all && f < PAGES
  {
    assert s'.owner.Keys == s.owner.Keys - {f};
  }

  /** A change of frames that are no directories, for process `p`. */
  lemma RootsKept(s: State, s': State, p: nat, f: nat, t: nat)
    requires RootsOk(s, p) && s'.cr3 == s.cr3 && s'.dirs.Keys == s.dirs.Keys
    requires forall q :: q in s.dirs && q != p ==> s'.dirs[q] == s.dirs[q]
    requires f in s.owner ==> !s.owner[f].Root?
    requires f in s'.owner ==> !s'.owner[f].Root?
    requires t in s.owner ==> !s.owner[t].Root?
    requires forall g :: g != f ==> (g in s'.owner <==> g in s.owner) && (g in s.owner ==> s'.owner[g] == s.owner[g])
    requires forall g :: g != t && g in s.mem ==> g in s'.mem && s'.mem[g] == s.mem[g]
    ensures RootsOk(s', p)
  {
  }

  /** A new table for an empty directory entry of `p`, in a frame taken from the free ones. */
  lemma TableAdded(s: State, all: set<nat>, p: nat, i: nat, f: nat)
    requires Consistent(s, all, p) && p in s.dirs && i < USER_TABLES
    requires |s.dirs[p]| == LEN && s.dirs[p][i] == 0 && f in s.free
    ensures Consistent(s.(dirs := SetDir(s.dirs, p, i, Entry(f, 7)), mem := s.mem[f := EMPTY],
                          owner := s.owner[f := Tab(p, i)], free := s.free - {f}), all, p)
  {
    hide RootsOk, Accounted;
    var s' := s.(dirs := SetDir(s.dirs, p, i, Entry(f, 7)), mem := s.mem[f := EMPTY],
                 owner := s.owner[f := Tab(p, i)], free := s.free - {f});
    FrameTaken(s, s', all, f, Tab(p, i));
    AddTable(s.dirs, s.mem, s.owner, p, i, f);
    RootsKept(s, s', p, f, f);
  }

  lemma FreeHigh(s: State, all: set<nat>, p: nat)
    requires Consistent(s, all, p)
    ensures forall f :: f in s.free ==> f >= LOWEST_FRAME
  {
  }

  lemma NotOwned(s: State, all: set<nat>, p: nat, f: nat)
    requires Consistent(s, all, p) && f in s.free
    ensures f !in s.owner && f in all && LOWEST_FRAME <= f < PAGES
  {
  }

  /** A new page in an empty place of a table of `p`. */
  lemma PageAdded(s: State, all: set<nat>, p: nat, i: nat, j: nat, f: nat, flags: nat)
    requires Consistent(s, all, p) && p in s.dirs && i < USER_TABLES && j < LEN && (flags == 3 || flags == 7)
    requires |s.dirs[p]| == LEN && s.dirs[p][i] != 0 && f in s.free
    requires Frame(s.dirs[p][i]) in s.mem && |s.mem[Frame(s.dirs[p][i])]| == LEN && s.mem[Frame(s.dirs[p][i])][j] == 0
    ensures Consistent(s.(mem := SetPte(s.mem, Frame(s.dirs[p][i]), j, Entry(f, flags)),
                          owner := s.owner[f := Page(p, i, j)], free := s.free - {f}), all, p)
  {
    TableOwned(s, all, p, i);
    hide RootsOk, Accounted, PageOk;
    var t := Frame(s.dirs[p][i]);
    var s' := s.(mem := SetPte(s.mem, t, j, Entry(f, flags)), owner := s.owner[f := Page(p, i, j)],
                 free := s.free - {f});
    FrameTaken(s, s', all, f, Page(p, i, j));
    AddPage(s.dirs, s.mem, s.owner, p, i, j, f, flags);
    RootsKept(s, s', p, f, t);
  }

  lemma TableOwned(s: State, all: set<nat>, p: nat, i: nat)
    requires Consistent(s, all, p) && p in s.dirs && i < USER_TABLES && |s.dirs[p]| == LEN
    ensures s.dirs[p][i] != 0 ==>
              var t := Frame(s.dirs[p][i]);
              && s.dirs[p][i] == Entry(t, 7) && t in s.owner && s.owner[t] == Tab(p, i)
              && t in s.mem && |s.mem[t]| == LEN
              && forall j :: 0 <= j < LEN ==> PageOk(s.mem[t], s.owner, p, i, j)
  {
    assert DirOk(s.dirs[p], s.mem, s.owner, p) && DirEntryOk(s.dirs[p], s.mem, s.owner, p, i);
  }

  /** A page leaves its table; its frame goes to `free` or, when it is merely overwritten, to `leaked`. */
  lemma PageDropped(s: State, all: set<nat>, p: nat, i: nat, j: nat, toFree: bool)
    requires Consistent(s, all, p) && p in s.dirs && i < USER_TABLES && j < LEN
    requires |s.dirs[p]| == LEN && s.dirs[p][i] != 0
    requires Frame(s.dirs[p][i]) in s.mem && |s.mem[Frame(s.dirs[p][i])]| == LEN && s.mem[Frame(s.dirs[p][i])][j] != 0
    ensures var t := Frame(s.dirs[p][i]);
            var f := Frame(s.mem[t][j]);
            var s' := s.(mem := SetPte(s.mem, t, j, 0), owner := s.owner - {f});
            && f in s.owner && s.owner[f] == Page(p, i, j) && f in all && f < PAGES && f !in s.free && f !in s.leaked
            && Consistent(if toFree then s'.(free := s.free + {f}) else s'.(leaked := s.leaked + {f}), all, p)
  {
    TableOwned(s, all, p, i);
    DropPage(s.dirs, s.mem, s.owner, p, i, j);
    hide Frames, RootsOk, Accounted, PageOk;
    var t := Frame(s.dirs[p][i]);
    var f := Frame(s.mem[t][j]);
    var s1 := s.(mem := SetPte(s.mem, t, j, 0), owner := s.owner - {f});
    var s' := if toFree then s1.(free := s.free + {f}) else s1.(leaked := s.leaked + {f});
    FrameGiven(s, s', all, f, toFree);
    RootsKept(s, s', p, f, t);
  }

  /** A table leaves the directory: its frame is free, and the pages still in it are lost. */
  ghost function TableGone(s: State, p: nat, i: nat): (r: State)
    requires p in s.dirs && i < |s.dirs[p]|
  {
    var t, gone := Frame(s.dirs[p][i]), Behind(s.owner, p, i);
    s.(dirs := SetDir(s.dirs, p, i, 0), owner := s.owner - gone, free := s.free + {t},
       leaked := s.leaked + (gone - {t}))
  }

  lemma TableDropped(s: State, all: set<nat>, p: nat, i: nat)
    requires Consistent(s, all, p) && p in s.dirs && i < USER_TABLES && |s.dirs[p]| == LEN && s.dirs[p][i] != 0
    ensures var t := Frame(s.dirs[p][i]);
            t in s.owner && s.owner[t] == Tab(p, i) && t in all && t < PAGES && t !in s.free
    ensures Consistent(TableGone(s, p, i), all, p)
  {
    DropTable(s.dirs, s.mem, s.owner, p, i);
    hide Frames;
    var t, gone := Frame(s.dirs[p][i]), Behind(s.owner, p, i);
    var s' := TableGone(s, p, i);
    assert t in gone;
    assert s'.owner.Keys == s.owner.Keys - gone;
    assert Accounted(s', all);
    hide Accounted;
    RootsKeptAll(s, s', p, gone);
  }

  lemma RootsKeptAll(s: State, s': State, p: nat, gone: set<nat>)
    requires RootsOk(s, p) && s'.cr3 == s.cr3 && s'.mem == s.mem && s'.dirs.Keys == s.dirs.Keys
             && s'.owner == s.owner - gone
    requires forall q :: q in s.dirs && q != p ==> s'.dirs[q] == s.dirs[q]
    requires forall f :: f in gone ==> f in s.owner && !s.owner[f].Root?
    ensures RootsOk(s', p)
  {
  }

  lemma NothingLost(s: State, all: set<nat>, p: nat, i: nat)
    requires Consistent(s, all, p) && p in s.dirs && i < USER_TABLES && |s.dirs[p]| == LEN && s.dirs[p][i] != 0
    requires Frame(s.dirs[p][i]) in s.mem
    requires forall j :: 0 <= j < |s.mem[Frame(s.dirs[p][i])]| ==> s.mem[Frame(s.dirs[p][i])][j] == 0
    ensures Behind(s.owner, p, i) == {Frame(s.dirs[p][i])}
  {
    EmptyTable(s.dirs, s.mem, s.owner, p, i);
  }

  /** The tables of one directory are different frames. */
  lemma TablesDistinct(s: State, all: set<nat>, p: nat, i: nat, k: nat)
    requires Consistent(s, all, p) && p in s.dirs && i < USER_TABLES && k < USER_TABLES && i != k && |s.dirs[p]| == LEN
    ensures s.dirs[p][i] != 0 && s.dirs[p][k] != 0 ==> Frame(s.dirs[p][i]) != Frame(s.dirs[p][k])
  {
    TableOwned(s, all, p, i);
    TableOwned(s, all, p, k);
  }

  // ------------------------------------------------------- the flat page map

  /** The frame virtual page `v` is mapped to; 0 when it is not mapped. */
  ghost function Mapped(dir: Table, mem: Mem, v: nat): (f: nat)
    requires |dir| == LEN && v < USER_PAGES
  {
    var t := Frame(dir[v / LEN]);
    if dir[v / LEN] != 0 && t in mem && |mem[t]| == LEN then Frame(mem[t][v % LEN]) else 0
  }

  /** Page `v` changed its mapping; all other pages of the address space kept theirs. */
  ghost predicate OnlyPage(dir: Table, mem: Mem, dir': Table, mem': Mem, v: nat)
    requires |dir| == |dir'| == LEN && v < USER_PAGES
  {
    forall u :: 0 <= u < USER_PAGES && u != v ==> Mapped(dir', mem', u) == Mapped(dir, mem, u)
  }

  /** Pages outside `lo` to `hi` kept their mappings. */
  ghost predicate RestKept(dir: Table, mem: Mem, dir': Table, mem': Mem, lo: nat, hi: nat) {
    && |dir| == |dir'| == LEN
    && forall u :: 0 <= u < USER_PAGES && !(lo <= u < hi) ==> Mapped(dir', mem', u) == Mapped(dir, mem, u)
  }

  /** A directory and the contents of its tables are as they were. */
  ghost predicate SameSpace(dir: Table, mem: Mem, dir': Table, mem': Mem) {
    && |dir| == LEN && dir' == dir
    && forall i :: 0 <= i < USER_TABLES && dir[i] != 0 ==>
         Frame(dir[i]) in mem && Frame(dir[i]) in mem' && mem'[Frame(dir[i])] == mem[Frame(dir[i])]
  }

  /** The address spaces of all processes but `p` are as they were. */
  ghost predicate SpacesKept(dirs: Dirs, mem: Mem, dirs': Dirs, mem': Mem, p: nat) {
    forall q :: q in dirs && q in dirs' && q != p ==> SameSpace(dirs[q], mem, dirs'[q], mem')
  }

  /** So is then everything mapped in them. */
  lemma SameSpaceMeans(dir: Table, mem: Mem, dir': Table, mem': Mem, n: nat)
    requires SameSpace(dir, mem, dir', mem')
    ensures forall u :: 0 <= u < USER_PAGES ==> Mapped(dir', mem', u) == Mapped(dir, mem, u)
    ensures HeapUpTo(dir, mem, n) ==> HeapUpTo(dir', mem', n)
    ensures HeapLow(dir, mem, n) ==> HeapLow(dir', mem', n)
  {
    if HeapUpTo(dir, mem, n) {
      forall k | HEAP_PAGE / LEN <= k < STACK_TABLE ensures HeapTableOk(dir', mem', n, k) {
        assert HeapTableOk(dir, mem, n, k);
      }
    }
  }

  /** All heap pages below `n` are mapped; a program with segments above the heap base may have more. */
  ghost predicate HeapLow(dir: Table, mem: Mem, n: nat) {
    && |dir| == LEN && HEAP_PAGE <= n <= HEAP_LIMIT
    && forall u :: HEAP_PAGE <= u < n ==> Mapped(dir, mem, u) != 0
  }

  lemma LowGrown(dir: Table, mem: Mem, dir': Table, mem': Mem, v: nat)
    requires HeapLow(dir, mem, v) && v < HEAP_LIMIT && |dir'| == LEN && OnlyPage(dir, mem, dir', mem', v)
             && Mapped(dir', mem', v) != 0
    ensures HeapLow(dir', mem', v + 1)
  {
  }

  lemma LowRest(dir: Table, mem: Mem, dir': Table, mem': Mem, v: nat, n: nat)
    requires HeapLow(dir, mem, n) && HEAP_PAGE <= v <= n && RestKept(dir, mem, dir', mem', v, HEAP_LIMIT)
    ensures HeapLow(dir', mem', v)
  {
  }

  lemma LowTop(dir: Table, mem: Mem, v: nat, n: nat)
    requires HeapLow(dir, mem, n) && HEAP_PAGE <= v < n
    ensures v < HEAP_LIMIT && Mapped(dir, mem, v) != 0
  {
  }

  lemma RestThen(d0: Table, m0: Mem, d1: Table, m1: Mem, d2: Table, m2: Mem, v: nat, w: nat)
    requires RestKept(d0, m0, d1, m1, w, HEAP_LIMIT) && RestKept(d1, m1, d2, m2, v, HEAP_LIMIT) && v <= w
    ensures RestKept(d0, m0, d2, m2, v, HEAP_LIMIT)
  {
  }

  /** The user pages that are mapped. */
  ghost function MappedPages(dir: Table, mem: Mem): (r: set<nat>) {
    if |dir| != LEN then {} else set v: nat | v < USER_PAGES && Mapped(dir, mem, v) != 0
  }

  /** Pages `lo` to `hi`. */
  ghost function Span(lo: nat, hi: nat): (r: set<nat>)
    ensures forall v: nat :: v in r <==> lo <= v < hi
    decreases hi
  {
    if hi <= lo then {} else Span(lo, hi - 1) + {hi - 1}
  }

  /** The pages of the segments. */
  ghost function SegSet(segs: seq<Segment>): (r: set<nat>) {
    if segs == [] then {}
    else SegSet(segs[..|segs| - 1]) + Span(FirstPage(segs[|segs| - 1]), EndPage(segs[|segs| - 1]))
  }

  ghost function StackPages(): (r: set<nat>) {
    {USER_PAGES - 1, USER_PAGES - 2, USER_PAGES - 3}
  }

  /** What a program has mapped: its segments, its stack, and its heap up to `top`. */
  ghost function ProgramPages(segs: seq<Segment>, top: nat): (r: set<nat>) {
    SegSet(segs) + StackPages() + Span(HEAP_PAGE, top)
  }

  /** How many pages of the segments lie where the stack or the heap goes. */
  ghost function Overlap(segs: seq<Segment>, top: nat): (n: nat) {
    |SegSet(segs) * (StackPages() + Span(HEAP_PAGE, top))|
  }

  /** The program may use its own stack page but not the kernel's two. */
  ghost predicate StackFlags(dir: Table, mem: Mem) {
    && |dir| == LEN && Frame(dir[STACK_TABLE]) in mem
    && var table := mem[Frame(dir[STACK_TABLE])];
       |table| == LEN && table[LEN - 1] % PGSIZE == 7 && table[LEN - 2] % PGSIZE == 3 && table[LEN - 3] % PGSIZE == 3
  }

  lemma OnlyPageAdds(dir: Table, mem: Mem, dir': Table, mem': Mem, v: nat)
    requires |dir| == |dir'| == LEN && v < USER_PAGES && OnlyPage(dir, mem, dir', mem', v) && Mapped(dir', mem', v) != 0
    ensures MappedPages(dir', mem') == MappedPages(dir, mem) + {v}
  {
    hide Mapped;
  }

  lemma SamePages(dir: Table, mem: Mem, dir': Table, mem': Mem)
    requires |dir| == |dir'| == LEN && forall u :: 0 <= u < USER_PAGES ==> Mapped(dir', mem', u) == Mapped(dir, mem, u)
    ensures MappedPages(dir', mem') == MappedPages(dir, mem)
  {
    hide Mapped;
  }

  /** Exactly the pages `lo` to `hi` were added. */
  ghost predicate Added(before: set<nat>, after: set<nat>, lo: nat, hi: nat) {
    after == before + Span(lo, hi)
  }

  lemma AddedNone(pages: set<nat>, lo: nat)
    ensures Added(pages, pages, lo, lo) && Shared(pages, lo, lo) == 0
  {
    assert pages * Span(lo, lo) == {};
  }

  /** How many of the pages `lo` to `hi` are among `pages`. */
  ghost function Shared(pages: set<nat>, lo: nat, hi: nat): (n: nat) {
    |pages * Span(lo, hi)|
  }

  lemma SharedOn(before: set<nat>, mid: set<nat>, lo: nat, v: nat)
    requires Added(before, mid, lo, v) && lo <= v
    ensures Shared(before, lo, v + 1) == Shared(before, lo, v) + if v in mid then 1 else 0
  {
    hide Span;
    assert Span(lo, v + 1) == Span(lo, v) + {v};
    SharedOneMore(before, Span(lo, v), v);
  }

  lemma AddedOn(before: set<nat>, mid: set<nat>, after: set<nat>, lo: nat, v: nat)
    requires Added(before, mid, lo, v) && after == mid + {v} && lo <= v
    ensures Added(before, after, lo, v + 1)
  {
  }

  lemma AddedIs(before: set<nat>, after: set<nat>, lo: nat, hi: nat)
    requires Added(before, after, lo, hi)
    ensures after == before + Span(lo, hi)
  {
  }

  lemma UnionThen(a: set<nat>, b: set<nat>, c: set<nat>)
    ensures a + b + c == a + (b + c)
  {
  }

  lemma ThreeShared(pages: set<nat>, x: nat, y: nat, z: nat)
    requires x != y && y != z && x != z
    ensures |pages * {x, y, z}| ==
            (if x in pages then 1 else 0) + (if y in pages then 1 else 0) + (if z in pages then 1 else 0)
  {
    SharedOneMore(pages, {}, x);
    SharedOneMore(pages, {x}, y);
    SharedOneMore(pages, {x, y}, z);
    assert {} + {x} == {x} && {x} + {y} == {x, y} && {x, y} + {z} == {x, y, z};
  }

  lemma SharedOneMore(pages: set<nat>, some: set<nat>, x: nat)
    requires x !in some
    ensures |pages * (some + {x})| == |pages * some| + if x in pages then 1 else 0
  {
    if x in pages {
      assert pages * (some + {x}) == pages * some + {x};
    } else {
      assert pages * (some + {x}) == pages * some;
    }
  }

  lemma NoPages(mem: Mem)
    ensures MappedPages(EMPTY, mem) == {}
  {
    assert |EMPTY| == LEN && forall k :: 0 <= k < LEN ==> EMPTY[k] == 0;
  }

  lemma SegSetOn(segs: seq<Segment>, m: nat)
    requires m < |segs|
    ensures SegSet(segs[..m + 1]) == SegSet(segs[..m]) + Span(FirstPage(segs[m]), EndPage(segs[m]))
  {
    assert segs[..m + 1][..m] == segs[..m];
  }

  /** Growing the heap of a program just loaded: pages of segments under the stack or the heap are counted once. */
  lemma ThenGrown(segs: seq<Segment>, before: set<nat>, after: set<nat>, top: nat)
    requires before == ProgramPages(segs, HEAP_PAGE) && after == before + Span(HEAP_PAGE, top) && top <= HEAP_LIMIT
    ensures after == ProgramPages(segs, top)
    ensures Overlap(segs, HEAP_PAGE) + Shared(before, HEAP_PAGE, top) == Overlap(segs, top)
  {
    hide Span, SegSet;
    var pages, heap := SegSet(segs), Span(HEAP_PAGE, top);
    assert Span(HEAP_PAGE, HEAP_PAGE) == {};
    assert before * heap == pages * heap;
    assert pages * (StackPages() + heap) == pages * StackPages() + pages * heap;
    assert pages * StackPages() !! pages * heap;
    assert pages * (StackPages() + {}) == pages * StackPages();
  }

  /** The pages of a program that is loaded but has no heap yet. */
  lemma JustLoaded(segs: seq<Segment>)
    ensures {} + SegSet(segs) + StackPages() == ProgramPages(segs, HEAP_PAGE)
    ensures |({} + SegSet(segs)) * StackPages()| == Overlap(segs, HEAP_PAGE)
  {
    hide SegSet, Span;
    assert Span(HEAP_PAGE, HEAP_PAGE) == {};
    assert {} + SegSet(segs) == SegSet(segs);
    assert StackPages() + {} == StackPages();
  }

  /** Outside the heap, process `p` has the mappings it had. */
  ghost predicate HeapOnly(dirs: Dirs, mem: Mem, dirs': Dirs, mem': Mem, p: nat) {
    p in dirs && p in dirs' && RestKept(dirs[p], mem, dirs'[p], mem', HEAP_PAGE, HEAP_LIMIT)
  }

  /** Process `p` has exactly the pages it had and those from `from` to `to`. */
  ghost predicate HeapAdded(dirs: Dirs, mem: Mem, dirs': Dirs, mem': Mem, p: nat, from: nat, to: nat) {
    p in dirs && p in dirs' && MappedPages(dirs'[p], mem') == MappedPages(dirs[p], mem) + Span(from, to)
  }

  /** Only the break of `p` moved, by what `sbrk_helper` makes of `delta`. */
  ghost predicate BrkMoved(brk: map<nat, nat>, brk': map<nat, nat>, p: nat, delta: int) {
    p in brk && p in brk' && brk' == brk[p := brk'[p]] && brk'[p] == brk[p] + SbrkDelta(delta, brk[p])
  }

  /** What the callers of `sbrk_helper` must see to: see `SbrkHelper`. */
  ghost predicate SbrkAllowed(brk: map<nat, nat>, p: nat, delta: int, frames: nat) {
    SbrkInRange(brk, p, delta) && frames >= SbrkFrames(delta)
  }

  predicate SbrkInRange(brk: map<nat, nat>, p: nat, delta: int) {
    && p in brk && -0x8000_0000 <= delta < 0x8000_0000 - PGSIZE
    && brk[p] + Rounded(delta) <= HEAP_LIMIT * PGSIZE
    && (Rounded(delta) < 0 ==> brk[p] > HEAP_BASE)
  }

  /** Frames a move of the break may need: a page and a table each. */
  function SbrkFrames(delta: int): (n: nat) {
    if Rounded(delta) < 0 then 0 else 2 * (Rounded(delta) / PGSIZE)
  }

  lemma RestKeptSame(dir: Table, mem: Mem, lo: nat)
    requires |dir| == LEN
    ensures RestKept(dir, mem, dir, mem, lo, lo)
  {
  }

  lemma RestKeptUp(d0: Table, m0: Mem, d1: Table, m1: Mem, d2: Table, m2: Mem, lo: nat, v: nat)
    requires RestKept(d0, m0, d1, m1, lo, v) && lo <= v < USER_PAGES && |d2| == LEN && OnlyPage(d1, m1, d2, m2, v)
    ensures RestKept(d0, m0, d2, m2, lo, v + 1)
  {
  }

  lemma RestSame(dir: Table, mem: Mem, lo: nat)
    requires |dir| == LEN
    ensures RestKept(dir, mem, dir, mem, lo, HEAP_LIMIT)
  {
  }

  lemma RestKeptWiden(dir: Table, mem: Mem, dir': Table, mem': Mem, mem'': Mem, lo: nat, hi: nat)
    requires RestKept(dir, mem, dir', mem', lo, hi) && HEAP_PAGE <= lo && hi <= HEAP_LIMIT
    requires forall u :: 0 <= u < USER_PAGES ==> Mapped(dir', mem'', u) == Mapped(dir', mem', u)
    ensures RestKept(dir, mem, dir', mem'', HEAP_PAGE, HEAP_LIMIT)
  {
  }

  /** What one step of a mapping loop does around page `v`: table `t` has entry `w` for it now. */
  ghost predicate EntrySet(dir: Table, mem: Mem, dir': Table, mem': Mem, v: nat, t: nat, w: nat)
    requires v < USER_PAGES
  {
    var i := v / LEN;
    && |dir| == |dir'| == LEN && (forall k :: 0 <= k < LEN && k != i ==> dir'[k] == dir[k])
    && dir'[i] != 0 && Frame(dir'[i]) == t && (dir[i] != 0 ==> dir'[i] == dir[i])
    && t in mem' && |mem'[t]| == LEN && mem'[t][v % LEN] == w
    && (dir[i] != 0 ==> t in mem && |mem[t]| == LEN)
    && (forall j :: 0 <= j < LEN && j != v % LEN ==> mem'[t][j] == if dir[i] == 0 then 0 else mem[t][j])
    && (forall k :: 0 <= k < USER_TABLES && k != i && dir[k] != 0 ==>
          Frame(dir[k]) in mem && Frame(dir[k]) in mem' && mem'[Frame(dir[k])] == mem[Frame(dir[k])])
  }

  lemma EntrySetOnlyPage(dir: Table, mem: Mem, dir': Table, mem': Mem, v: nat, t: nat, w: nat)
    requires v < USER_PAGES && EntrySet(dir, mem, dir', mem', v, t, w)
    ensures OnlyPage(dir, mem, dir', mem', v) && Mapped(dir', mem', v) == Frame(w)
  {
    forall u | 0 <= u < USER_PAGES && u != v
      ensures Mapped(dir', mem', u) == Mapped(dir, mem, u)
    {
      assert u / LEN != v / LEN || u % LEN != v % LEN;
    }
  }

  /** Mapping the page at the end of the heap moves the end by one page. */
  lemma HeapGrown(dir: Table, mem: Mem, dir': Table, mem': Mem, v: nat, t: nat, w: nat)
    requires HeapUpTo(dir, mem, v) && v < HEAP_LIMIT && EntrySet(dir, mem, dir', mem', v, t, w) && w != 0
    ensures HeapUpTo(dir', mem', v + 1)
  {
    var n := v + 1;
    forall k | HEAP_PAGE / LEN <= k < STACK_TABLE
      ensures HeapTableOk(dir', mem', n, k)
    {
      assert HeapTableOk(dir, mem, v, k);
    }
  }

  /** The page just above the heap is not mapped. */
  lemma HeapTopFree(dir: Table, mem: Mem, v: nat)
    requires HeapUpTo(dir, mem, v) && v < HEAP_LIMIT
    ensures dir[v / LEN] != 0 ==>
              Frame(dir[v / LEN]) in mem && |mem[Frame(dir[v / LEN])]| == LEN && mem[Frame(dir[v / LEN])][v % LEN] == 0
  {
    assert HeapTableOk(dir, mem, v, v / LEN);
  }

  lemma StepSets(dir0: Table, mem0: Mem, dir: Table, mem1: Mem, v: nat, t: nat, w: nat)
    requires v < USER_PAGES && |dir0| == |dir| == LEN && t == Frame(dir[v / LEN]) && dir[v / LEN] != 0
    requires dir0[v / LEN] != 0 ==> dir == dir0 && mem1 == mem0
    requires dir0[v / LEN] == 0 ==> dir == SetAt(dir0, v / LEN, dir[v / LEN]) && mem1 == mem0[t := EMPTY]
    requires t in mem1 && |mem1[t]| == LEN
    requires forall k :: 0 <= k < USER_TABLES && k != v / LEN && dir[k] != 0 ==>
               Frame(dir[k]) != t && Frame(dir[k]) in mem1
    ensures EntrySet(dir0, mem0, dir, SetPte(mem1, t, v % LEN, w), v, t, w)
  {
  }

  lemma SetTwice(mem: Mem, t: nat, j: nat, w: nat, w': nat)
    requires t in mem && j < |mem[t]|
    ensures SetPte(SetPte(mem, t, j, w), t, j, w') == SetPte(mem, t, j, w')
  {
    assert SetAt(SetAt(mem[t], j, w), j, w') == SetAt(mem[t], j, w');
  }

  lemma HeapShrunk(dir: Table, mem: Mem, dir': Table, mem': Mem, v: nat)
    requires HeapUpTo(dir, mem, v + 1) && HEAP_PAGE <= v
    requires |dir'| == LEN && forall k :: 0 <= k < LEN && k != v / LEN ==> dir'[k] == dir[k]
    requires dir'[v / LEN] == if v % LEN == 0 then 0 else dir[v / LEN]
    requires var t := Frame(dir[v / LEN]);
             t in mem && |mem[t]| == LEN && mem' == SetPte(mem, t, v % LEN, 0)
    requires forall k :: 0 <= k < USER_TABLES && k != v / LEN && dir[k] != 0 ==> Frame(dir[k]) != Frame(dir[v / LEN])
    ensures HeapUpTo(dir', mem', v)
  {
    forall k | HEAP_PAGE / LEN <= k < STACK_TABLE
      ensures HeapTableOk(dir', mem', v, k)
    {
      assert HeapTableOk(dir, mem, v + 1, k);
    }
  }

  /** Between mapping loops every process may be the one at work. */
  lemma AnyProcess(s: State, all: set<nat>, p: nat, q: nat)
    requires Consistent(s, all, p) && Settled(s)
    ensures s.dirs.Keys == s.cr3.Keys && Consistent(s, all, q)
            && (q in s.cr3 ==> q in s.dirs && s.cr3[q] in s.mem && s.mem[s.cr3[q]] == s.dirs[q])
  {
  }

  /** The buffered directory goes back to its frame. */
  lemma WrittenBack(s: State, all: set<nat>, p: nat)
    requires Consistent(s, all, p) && p in s.cr3 && s.dirs.Keys == s.cr3.Keys
    ensures var s' := s.(mem := s.mem[s.cr3[p] := s.dirs[p]]);
            Consistent(s', all, 0) && Settled(s')
  {
    RootWrite(s.dirs, s.mem, s.owner, s.cr3[p], s.dirs[p]);
    hide Frames;
    var s' := s.(mem := s.mem[s.cr3[p] := s.dirs[p]]);
    forall r | r in s.cr3 && r != p ensures s.cr3[r] != s.cr3[p] {
      assert s.owner[s.cr3[r]] == Root(r);
    }
  }

  /** The write-back does not show in any address space. */
  lemma SpaceAfterWriteBack(s: State, all: set<nat>, p: nat, q: nat)
    requires Consistent(s, all, p) && p in s.cr3 && q in s.dirs
    ensures SameSpace(s.dirs[q], s.mem, s.dirs[q], s.mem[s.cr3[p] := s.dirs[p]])
  {
    assert DirOk(s.dirs[q], s.mem, s.owner, q);
    forall k | 0 <= k < USER_TABLES && s.dirs[q][k] != 0
      ensures Frame(s.dirs[q][k]) in s.mem && Frame(s.dirs[q][k]) != s.cr3[p]
    {
      assert DirEntryOk(s.dirs[q], s.mem, s.owner, q, k);
    }
  }

  /** A process in the making has a directory in the kernel's buffer and no frame for it yet. */
  lemma ProcessBegun(s: State, all: set<nat>, p: nat)
    requires Consistent(s, all, 0) && Settled(s) && p !in s.cr3
    ensures s.dirs.Keys == s.cr3.Keys && Consistent(s.(dirs := s.dirs[p := EMPTY]), all, p)
  {
    AddDir(s.dirs, s.mem, s.owner, p);
    hide Frames;
  }

  /** The finished directory, with the kernel's half filled in, gets its frame. */
  lemma RootAdded(s: State, all: set<nat>, p: nat, r: nat, dir: Table)
    requires Consistent(s, all, p) && p !in s.cr3 && p in s.dirs && s.dirs.Keys == s.cr3.Keys + {p} && r in s.free
    requires |dir| == LEN == |s.dirs[p]| && forall i :: 0 <= i < USER_TABLES ==> dir[i] == s.dirs[p][i]
    ensures var s' := s.(dirs := s.dirs[p := dir], mem := s.mem[r := dir], owner := s.owner[r := Root(p)],
                         cr3 := s.cr3[p := r], free := s.free - {r});
            Consistent(s', all, 0) && Settled(s')
  {
    var s' := s.(dirs := s.dirs[p := dir], mem := s.mem[r := dir], owner := s.owner[r := Root(p)],
                 cr3 := s.cr3[p := r], free := s.free - {r});
    hide RootsOk, Accounted;
    FrameTaken(s, s', all, r, Root(p));
    KernelHalf(s.dirs, s.mem, s.owner, p, dir);
    RootWrite(s.dirs[p := dir], s.mem, s.owner, r, dir);
    AddRoot(s.dirs[p := dir], s.mem[r := dir], s.owner, p, r);
    hide Frames;
    RootsGrown(s, s', p, r, dir);
  }

  lemma RootsGrown(s: State, s': State, p: nat, r: nat, dir: Table)
    requires RootsOk(s, p) && p !in s.cr3 && s.dirs.Keys == s.cr3.Keys + {p} && r !in s.owner
    requires s'.dirs == s.dirs[p := dir] && s'.mem == s.mem[r := dir] && s'.owner == s.owner[r := Root(p)]
    requires s'.cr3 == s.cr3[p := r]
    ensures RootsOk(s', 0) && Settled(s')
  {
    assert s'.cr3.Keys == s.cr3.Keys + {p} && s'.dirs.Keys == s.dirs.Keys + {p};
    forall q | q in s'.cr3
      ensures s'.cr3[q] in s'.owner && s'.owner[s'.cr3[q]] == Root(q)
      ensures s'.cr3[q] in s'.mem && s'.mem[s'.cr3[q]] == s'.dirs[q]
    {
      RootStays(s, s', p, r, dir, q);
    }
    forall f | f in s'.owner && s'.owner[f].Root?
      ensures s'.owner[f].p in s'.cr3 && s'.cr3[s'.owner[f].p] == f
    {
      if f != r {
        assert f in s.owner && s.owner[f].p in s.cr3;
      }
    }
  }

  lemma RootStays(s: State, s': State, p: nat, r: nat, dir: Table, q: nat)
    requires RootsOk(s, p) && p !in s.cr3 && s.dirs.Keys == s.cr3.Keys + {p} && r !in s.owner
    requires s'.dirs == s.dirs[p := dir] && s'.mem == s.mem[r := dir] && s'.owner == s.owner[r := Root(p)]
    requires s'.cr3 == s.cr3[p := r] && q in s'.cr3
    ensures s'.cr3[q] in s'.owner && s'.owner[s'.cr3[q]] == Root(q)
    ensures q in s'.dirs && s'.cr3[q] in s'.mem && s'.mem[s'.cr3[q]] == s'.dirs[q]
  {
    if q != p {
      assert s.cr3[q] in s.owner && s.cr3[q] != r;
    }
  }

  /** A loadable segment of a program. */
  datatype Segment = Segment(vaddr: nat, memsz: nat)

  function FirstPage(seg: Segment): (v: nat) {
    seg.vaddr / PGSIZE
  }

  function EndPage(seg: Segment): (v: nat)
    ensures v > FirstPage(seg)
  {
    (seg.vaddr + seg.memsz) / PGSIZE + 1
  }

  function SegPages(segs: seq<Segment>): (n: nat) {
    if segs == [] then 0 else SegPages(segs[..|segs| - 1]) + (EndPage(segs[|segs| - 1]) - FirstPage(segs[|segs| - 1]))
  }

  predicate BelowHeap(segs: seq<Segment>) {
    forall k :: 0 <= k < |segs| ==> EndPage(segs[k]) <= HEAP_PAGE
  }

  /** The program fits user space, its arguments fit the heap, and there are frames for all of it. */
  ghost predicate ExecAllowed(segs: seq<Segment>, argLen: nat, frames: nat) {
    ExecInRange(segs, argLen) && frames >= ExecFrames(segs, argLen)
  }

  predicate ExecInRange(segs: seq<Segment>, argLen: nat) {
    && (forall k :: 0 <= k < |segs| ==> EndPage(segs[k]) <= USER_PAGES)
    && HEAP_BASE + Rounded(argLen) <= HEAP_LIMIT * PGSIZE
  }

  function ExecFrames(segs: seq<Segment>, argLen: nat): (n: nat) {
    2 * SegPages(segs) + 5 + SbrkFrames(argLen)
  }

  /** No table at or above the heap base. */
  ghost predicate NoneAbove(dir: Table) {
    |dir| == LEN && forall k :: HEAP_PAGE / LEN <= k < USER_TABLES ==> dir[k] == 0
  }

  /** The frames of all other processes stay theirs and keep their contents. */
  ghost predicate OthersKept(owner: Owner, mem: Mem, owner': Owner, mem': Mem, p: nat) {
    forall g :: g in owner && owner[g].p != p ==>
      && g in owner' && owner'[g] == owner[g]
      && (g in mem ==> g in mem' && mem'[g] == mem[g])
  }

  lemma OthersKeptThen(o0: Owner, m0: Mem, o1: Owner, m1: Mem, o2: Owner, m2: Mem, p: nat)
    requires OthersKept(o0, m0, o1, m1, p) && OthersKept(o1, m1, o2, m2, p)
    ensures OthersKept(o0, m0, o2, m2, p)
  {
  }

  /** So the address space of another process is what it was. */
  lemma OtherSpaceKept(s: State, all: set<nat>, owner': Owner, mem': Mem, p: nat, q: nat)
    requires Consistent(s, all, q) && q in s.dirs && q != p && OthersKept(s.owner, s.mem, owner', mem', p)
    ensures SameSpace(s.dirs[q], s.mem, s.dirs[q], mem')
  {
    DirLen(s, all, q);
    forall k | 0 <= k < USER_TABLES && s.dirs[q][k] != 0
      ensures Frame(s.dirs[q][k]) in s.mem && Frame(s.dirs[q][k]) in mem'
              && mem'[Frame(s.dirs[q][k])] == s.mem[Frame(s.dirs[q][k])]
    {
      TableOwned(s, all, q, k);
    }
  }

  /** The new directory with the kernel's entries in its upper part. */
  function WithKernel(dir: Table, kernelDir: Table): (r: Table)
    requires |dir| == |kernelDir| == LEN
    ensures |r| == LEN && forall i :: 0 <= i < USER_TABLES ==> r[i] == dir[i]
  {
    dir[..USER_TABLES] + kernelDir[USER_TABLES..]
  }

  lemma OthersKeptAdd(owner: Owner, mem: Mem, r: nat, dir: Table, p: nat)
    requires r !in owner
    ensures OthersKept(owner, mem, owner[r := Root(p)], mem[r := dir], p)
  {
  }

  lemma StaysBelow(dir: Table, dir': Table, v: nat)
    requires |dir| == |dir'| == LEN && v < USER_PAGES && forall k :: 0 <= k < LEN && k != v / LEN ==> dir'[k] == dir[k]
    ensures NoneAbove(dir) && v < HEAP_PAGE ==> NoneAbove(dir')
  {
  }

  /** The other tables of the directory are other frames. */
  lemma TablesApart(s: State, all: set<nat>, p: nat, i: nat)
    requires Consistent(s, all, p) && p in s.dirs && |s.dirs[p]| == LEN && i < USER_TABLES && s.dirs[p][i] != 0
    ensures forall k :: 0 <= k < USER_TABLES && k != i && s.dirs[p][k] != 0 ==>
      Frame(s.dirs[p][k]) != Frame(s.dirs[p][i]) && Frame(s.dirs[p][k]) in s.mem
  {
    forall k | 0 <= k < USER_TABLES && k != i && s.dirs[p][k] != 0
      ensures Frame(s.dirs[p][k]) != Frame(s.dirs[p][i]) && Frame(s.dirs[p][k]) in s.mem
    {
      TablesDistinct(s, all, p, i, k);
      TableOwned(s, all, p, k);
    }
  }

  /** A page is mapped exactly when its entry is set. */
  lemma EntryMapped(s: State, all: set<nat>, p: nat, v: nat)
    requires Consistent(s, all, p) && p in s.dirs && |s.dirs[p]| == LEN && v < USER_PAGES && s.dirs[p][v / LEN] != 0
    ensures var t := Frame(s.dirs[p][v / LEN]);
            t in s.mem && |s.mem[t]| == LEN && (s.mem[t][v % LEN] != 0 <==> v in MappedPages(s.dirs[p], s.mem))
  {
    TableOwned(s, all, p, v / LEN);
    assert PageOk(s.mem[Frame(s.dirs[p][v / LEN])], s.owner, p, v / LEN, v % LEN);
    assert v in MappedPages(s.dirs[p], s.mem) <==> Mapped(s.dirs[p], s.mem, v) != 0;
  }

  /** A new empty table maps nothing. */
  lemma TableAddsNothing(dir0: Table, mem0: Mem, dir: Table, mem: Mem, i: nat, t: nat)
    requires i < USER_TABLES && |dir0| == |dir| == LEN && dir[i] != 0 && t == Frame(dir[i])
    requires dir0[i] != 0 ==> dir == dir0 && mem == mem0
    requires dir0[i] == 0 ==> dir == SetAt(dir0, i, dir[i]) && mem == mem0[t := EMPTY]
    requires forall k :: 0 <= k < USER_TABLES && k != i && dir[k] != 0 ==> Frame(dir[k]) != t
    ensures MappedPages(dir, mem) == MappedPages(dir0, mem0)
  {
    if dir0[i] == 0 {
      forall u | 0 <= u < USER_PAGES ensures Mapped(dir, mem, u) == Mapped(dir0, mem0, u) {
        assert u / LEN != i ==> dir[u / LEN] == dir0[u / LEN];
      }
    }
    SamePages(dir0, mem0, dir, mem);
  }

  lemma StackPlace(j: nat)
    requires j < LEN
    ensures STACK_TABLE * LEN + j < USER_PAGES
    ensures (STACK_TABLE * LEN + j) / LEN == STACK_TABLE && (STACK_TABLE * LEN + j) % LEN == j
  {
  }

  lemma StackEntry(dir: Table)
    ensures NoneAbove(dir) ==> |dir| == LEN && dir[STACK_TABLE] == 0
  {
  }

  lemma NoHeapYet(dir: Table, dir': Table, mem: Mem, w: nat)
    requires NoneAbove(dir) && dir' == SetAt(dir, STACK_TABLE, w)
    ensures HeapUpTo(dir', mem, HEAP_PAGE)
  {
  }

  lemma EmptyNoneAbove()
    ensures NoneAbove(EMPTY)
  {
  }

  lemma PageOfBreak(n: nat)
    ensures n * PGSIZE % PGSIZE == 0 && n * PGSIZE / PGSIZE == n
  {
  }

  lemma ArgPages(argLen: nat)
    ensures Rounded(argLen) >= 0 && Rounded(argLen) % PGSIZE == 0
            && SbrkFrames(argLen) == 2 * (Rounded(argLen) / PGSIZE)
    ensures (HEAP_BASE + Rounded(argLen)) % PGSIZE == 0
    ensures (HEAP_BASE + Rounded(argLen)) / PGSIZE == HEAP_PAGE + Rounded(argLen) / PGSIZE
    ensures (HEAP_PAGE + Rounded(argLen) / PGSIZE) * PGSIZE == HEAP_BASE + Rounded(argLen)
    ensures HEAP_BASE + Rounded(argLen) <= HEAP_LIMIT * PGSIZE ==> HEAP_PAGE + Rounded(argLen) / PGSIZE <= HEAP_LIMIT
  {
  }

  lemma MappedInstalled(s: State, all: set<nat>, p: nat, r: nat, dir: Table)
    requires Consistent(s, all, p) && p in s.dirs && r !in s.owner && |s.dirs[p]| == LEN
    requires |dir| == LEN && forall i :: 0 <= i < USER_TABLES ==> dir[i] == s.dirs[p][i]
    ensures MappedPages(dir, s.mem[r := dir]) == MappedPages(s.dirs[p], s.mem)
  {
    forall u | 0 <= u < USER_PAGES ensures Mapped(dir, s.mem[r := dir], u) == Mapped(s.dirs[p], s.mem, u) {
      TableOwned(s, all, p, u / LEN);
    }
    SamePages(s.dirs[p], s.mem, dir, s.mem[r := dir]);
  }

  lemma HeapInstalled(s: State, all: set<nat>, p: nat, r: nat, dir: Table, n: nat)
    requires Consistent(s, all, p) && p in s.dirs && r !in s.owner && HeapUpTo(s.dirs[p], s.mem, n)
    requires |dir| == LEN && forall i :: 0 <= i < USER_TABLES ==> dir[i] == s.dirs[p][i]
    ensures HeapUpTo(dir, s.mem[r := dir], n)
  {
    var mem' := s.mem[r := dir];
    forall k | HEAP_PAGE / LEN <= k < STACK_TABLE
      ensures HeapTableOk(dir, mem', n, k)
    {
      assert HeapTableOk(s.dirs[p], s.mem, n, k);
      TableOwned(s, all, p, k);
    }
  }

  lemma {:induction false} SegPagesPrefix(segs: seq<Segment>, m: nat)
    requires m < |segs|
    ensures SegPages(segs[..m + 1]) == SegPages(segs[..m]) + (EndPage(segs[m]) - FirstPage(segs[m]))
    ensures SegPages(segs[..m + 1]) <= SegPages(segs)
    decreases |segs| - m
  {
    assert segs[..m + 1][..m] == segs[..m];
    if m + 1 < |segs| {
      SegPagesPrefix(segs, m + 1);
    } else {
      assert segs[..m + 1] == segs;
    }
  }

  /** The moved break is a page boundary inside the heap's range. */
  lemma SbrkPages(brk: map<nat, nat>, p: nat, delta: int, frames: nat)
    requires SbrkAllowed(brk, p, delta, frames) && brk[p] % PGSIZE == 0
    requires HEAP_PAGE <= brk[p] / PGSIZE <= HEAP_LIMIT
    ensures var to := brk[p] + SbrkDelta(delta, brk[p]);
            && to >= 0 && to % PGSIZE == 0 && HEAP_PAGE <= to / PGSIZE <= HEAP_LIMIT
            && (Rounded(delta) < 0 ==> to <= brk[p]) && (Rounded(delta) >= 0 ==> to >= brk[p])
            && (to >= brk[p] ==> frames >= SbrkFrames(delta) >= 2 * (to / PGSIZE - brk[p] / PGSIZE))
            && (to < brk[p] <==> SbrkDelta(delta, brk[p]) < 0)
  {
    var d := Rounded(delta);
    if d < 0 {
      ClampBites(d, brk[p]);
    }
  }

  lemma OtherSpacesKept(s: State, all: set<nat>, dirs': Dirs, owner': Owner, mem': Mem, p: nat)
    requires Consistent(s, all, 0) && Settled(s) && OthersKept(s.owner, s.mem, owner', mem', p)
    requires forall q :: q in s.dirs && q != p ==> q in dirs' && dirs'[q] == s.dirs[q]
    ensures SpacesKept(s.dirs, s.mem, dirs', mem', p)
  {
    hide Consistent, OthersKept;
    forall q | q in s.dirs && q in dirs' && q != p
      ensures SameSpace(s.dirs[q], s.mem, dirs'[q], mem')
    {
      AnyProcess(s, all, 0, q);
      OtherSpaceKept(s, all, owner', mem', p, q);
    }
  }

  lemma SpacesKeptThen(d0: Dirs, m0: Mem, d1: Dirs, m1: Mem, d2: Dirs, m2: Mem, p: nat)
    requires d0.Keys <= d1.Keys && SpacesKept(d0, m0, d1, m1, p) && SpacesKept(d1, m1, d2, m2, p)
    ensures SpacesKept(d0, m0, d2, m2, p)
  {
  }

  lemma KnownDirs(s: State)
    requires Settled(s)
    ensures s.dirs.Keys == s.cr3.Keys
  {
  }

  lemma DirLen(s: State, all: set<nat>, p: nat)
    requires Consistent(s, all, p) && p in s.dirs
    ensures |s.dirs[p]| == LEN
  {
    assert DirOk(s.dirs[p], s.mem, s.owner, p);
  }

  lemma LowShape(dir: Table, mem: Mem, n: nat)
    requires HeapLow(dir, mem, n)
    ensures |dir| == LEN && HEAP_PAGE <= n <= HEAP_LIMIT
  {
  }

  lemma SubsetSize(a: set<nat>, b: set<nat>)
    requires a <= b
    ensures |a| <= |b|
  {
    assert b == a + (b - a);
  }

  lemma OthersSame(owner: Owner, mem: Mem, p: nat)
    ensures OthersKept(owner, mem, owner, mem, p)
  {
  }

  /** Unmapping a page of the heap changes nothing below it and nothing outside the heap. */
  lemma ShrunkRest(dir: Table, mem: Mem, dir': Table, mem': Mem, v: nat)
    requires HEAP_PAGE <= v < HEAP_LIMIT && |dir| == |dir'| == LEN && dir[v / LEN] != 0
    requires forall k :: 0 <= k < LEN && k != v / LEN ==> dir'[k] == dir[k]
    requires dir'[v / LEN] == if v % LEN == 0 then 0 else dir[v / LEN]
    requires var t := Frame(dir[v / LEN]);
             t in mem && |mem[t]| == LEN && mem' == SetPte(mem, t, v % LEN, 0)
    requires forall k :: 0 <= k < USER_TABLES && k != v / LEN && dir[k] != 0 ==> Frame(dir[k]) != Frame(dir[v / LEN])
    ensures RestKept(dir, mem, dir', mem', v, HEAP_LIMIT) && Mapped(dir', mem', v) == 0
  {
    forall u | 0 <= u < USER_PAGES && !(v <= u < HEAP_LIMIT)
      ensures Mapped(dir', mem', u) == Mapped(dir, mem, u)
    {
      assert u / LEN != v / LEN || (u % LEN != v % LEN && v % LEN != 0);
    }
  }

  /** The last page of the heap is mapped, and alone in its table when it is the table's first. */
  lemma HeapTopMapped(dir: Table, mem: Mem, v: nat)
    requires HEAP_PAGE <= v && HeapUpTo(dir, mem, v + 1)
    ensures |dir| == LEN && v < HEAP_LIMIT && dir[v / LEN] != 0
    ensures var t := Frame(dir[v / LEN]);
            && t in mem && |mem[t]| == LEN && mem[t][v % LEN] != 0
            && (v % LEN == 0 ==> forall j :: 0 < j < LEN ==> mem[t][j] == 0)
  {
    var n := v + 1;
    assert HeapTableOk(dir, mem, n, v / LEN);
  }

  class Vm {
    const pages: PageAllocator
    var mem: Mem
    var cr3: map<nat, nat>
    var brk: map<nat, nat>
    ghost var dirs: Dirs           // directory contents of every process
    ghost var owner: Owner
    ghost var leaked: set<nat>     // frames that are neither free nor used any more
    ghost const all: set<nat>      // the frames free at boot

    ghost function View(): (s: State)
      requires pages.Valid()
      reads this, pages, pages.words
    {
      State(dirs, mem, owner, cr3, pages.Free(), leaked)
    }

    /** The state inside a mapping loop for process `p`. */
    ghost predicate Core(p: nat)
      reads this, pages, pages.words
    {
      pages.Valid() && Consistent(View(), all, p)
    }

    ghost predicate Valid()
      reads this, pages, pages.words
    {
      Core(0) && Settled(View()) && brk.Keys == cr3.Keys
    }

    /** After boot: no process yet, and only high memory is free. */
    constructor (pages: PageAllocator)
      requires pages.Valid() && forall f :: f in pages.Free() ==> LOWEST_FRAME <= f < PAGES
      ensures Valid() && this.pages == pages && cr3 == map[] && leaked == {} && all == pages.Free()
    {
      this.pages := pages;
      mem, cr3, brk := map[], map[], map[];
      dirs, owner, leaked := map[], map[], {};
      all := pages.Free();
    }

    /** A frame for entry `i` of the directory, zeroed, unless there is one. */
    method EnsureTable(p: nat, dir0: Table, i: nat) returns (dir: Table, t: nat)
      requires Core(p) && p in dirs && dirs[p] == dir0 && |dir0| == LEN && i < USER_TABLES && pages.Free() != {}
      modifies this`mem, this`owner, this`dirs, pages`ptr, pages.words
      ensures Core(p) && dirs == old(dirs)[p := dir]
      ensures |dir| == LEN && dir[i] != 0 && t == Frame(dir[i]) && t in mem && |mem[t]| == LEN
      ensures dir0[i] != 0 ==> dir == dir0 && mem == old(mem) && pages.Free() == old(pages.Free())
      ensures dir0[i] == 0 ==> dir == SetAt(dir0, i, Entry(t, 7)) && mem == old(mem)[t := EMPTY]
                               && t in old(pages.Free()) && pages.Free() == old(pages.Free()) - {t}
      ensures OthersKept(old(owner), old(mem), owner, mem, p)
    {
      hide Consistent;
      hide PageAllocator.Free;
      ghost var s := View();
      TableOwned(s, all, p, i);
      dir := dir0;
      if dir[i] == 0 {
        t := pages.Alloc();
        NotOwned(s, all, p, t);
        TableAdded(s, all, p, i, t);
        FrameOfEntry(t, 7);
        dir := SetAt(dir, i, Entry(t, 7));
        mem := mem[t := EMPTY];
        owner := owner[t := Tab(p, i)];
        dirs := dirs[p := dir];
      } else {
        t := Frame(dir[i]);
      }
    }

    /** Write an entry for a new frame; what was there before is lost. */
    method PutPage(p: nat, i: nat, j: nat, t: nat, flags: nat) returns (f: nat)
      requires Core(p) && p in dirs && |dirs[p]| == LEN && i < USER_TABLES && j < LEN && pages.Free() != {}
      requires dirs[p][i] != 0 && t == Frame(dirs[p][i]) && t in mem && |mem[t]| == LEN && (flags == 3 || flags == 7)
      modifies this`mem, this`owner, this`leaked, pages`ptr, pages.words
      ensures Core(p) && f in old(pages.Free()) && pages.Free() == old(pages.Free()) - {f}
      ensures mem == SetPte(old(mem), t, j, Entry(f, flags))
      ensures leaked == if old(mem)[t][j] == 0 then old(leaked) else old(leaked) + {Frame(old(mem)[t][j])}
      ensures |leaked| == |old(leaked)| + if old(mem)[t][j] == 0 then 0 else 1
      ensures OthersKept(old(owner), old(mem), owner, mem, p)
    {
      hide Consistent;
      hide PageAllocator.Free;
      ghost var s := View();
      TableOwned(s, all, p, i);
      if mem[t][j] != 0 {
        PageDropped(s, all, p, i, j, false);
        leaked := leaked + {Frame(mem[t][j])};
        owner := owner - {Frame(mem[t][j])};
        s := s.(mem := SetPte(s.mem, t, j, 0), owner := owner, leaked := leaked);
      }
      f := pages.Alloc();
      NotOwned(s, all, p, f);
      PageAdded(s, all, p, i, j, f, flags);
      SetTwice(mem, t, j, 0, Entry(f, flags));
      mem := SetPte(mem, t, j, Entry(f, flags));
      owner := owner[f := Page(p, i, j)];
    }

    /** One round of the growing loop of `sbrk_helper`. */
    method MapHeapPage(p: nat, dir0: Table, v: nat) returns (dir: Table)
      requires Core(p) && p in dirs && dirs[p] == dir0 && |dir0| == LEN && v < USER_PAGES && |pages.Free()| >= 2
      modifies this`mem, this`owner, this`dirs, this`leaked, pages`ptr, pages.words
      ensures Core(p) && |dir| == LEN && dirs == old(dirs)[p := dir] && |pages.Free()| >= |old(pages.Free())| - 2
      ensures OnlyPage(dir0, old(mem), dir, mem, v) && Mapped(dir, mem, v) in old(pages.Free())
      ensures MappedPages(dir, mem) == MappedPages(dir0, old(mem)) + {v}
      ensures |leaked| == |old(leaked)| + if v in MappedPages(dir0, old(mem)) then 1 else 0
      ensures HeapUpTo(dir0, old(mem), v) && v < HEAP_LIMIT ==> HeapUpTo(dir, mem, v + 1) && leaked == old(leaked)
      ensures OthersKept(old(owner), old(mem), owner, mem, p)
    {
      hide Consistent, HeapUpTo, OnlyPage, Mapped, MappedPages, OthersKept;
      hide PageAllocator.Free;
      ghost var mem0, owner0 := mem, owner;
      var i, j := v / LEN, v % LEN;
      var t;
      dir, t := EnsureTable(p, dir0, i);
      ghost var mem1, owner1 := mem, owner;
      TablesApart(View(), all, p, i);
      TableAddsNothing(dir0, mem0, dir, mem, i, t);
      EntryMapped(View(), all, p, v);
      FreeHigh(View(), all, p);
      assert |pages.Free()| >= 1;
      var f := PutPage(p, i, j, t, 7);
      OthersKeptThen(owner0, mem0, owner1, mem1, owner, mem, p);
      FrameOfEntry(f, 7);
      StepSets(dir0, mem0, dir, mem1, v, t, Entry(f, 7));
      EntrySetOnlyPage(dir0, mem0, dir, mem, v, t, Entry(f, 7));
      OnlyPageAdds(dir0, mem0, dir, mem, v);
      if HeapUpTo(dir0, mem0, v) && v < HEAP_LIMIT {
        HeapTopFree(dir0, mem0, v);
        HeapGrown(dir0, mem0, dir, mem, v, t, Entry(f, 7));
      }
    }

    /** Free a mapped page and clear its entry; the page was in use. */
    method TakePage(p: nat, i: nat, j: nat, t: nat) returns (f: nat)
      requires Core(p) && p in dirs && |dirs[p]| == LEN && i < USER_TABLES && j < LEN
      requires dirs[p][i] != 0 && t == Frame(dirs[p][i]) && t in mem && |mem[t]| == LEN && mem[t][j] != 0
      modifies this`mem, this`owner, pages.words
      ensures Core(p) && f == Frame(old(mem)[t][j]) && f > 0 && mem == SetPte(old(mem), t, j, 0)
      ensures f !in old(pages.Free()) && pages.Free() == old(pages.Free()) + {f}
      ensures OthersKept(old(owner), old(mem), owner, mem, p)
    {
      hide Consistent;
      hide PageAllocator.Free;
      ghost var s := View();
      TableOwned(s, all, p, i);
      assert PageOk(mem[t], owner, p, i, j);
      PageDropped(s, all, p, i, j, true);
      f := Frame(mem[t][j]);
      owner := owner - {f};
      var ok := pages.FreePage(f);
      mem := SetPte(mem, t, j, 0);
    }

    /** Free a table and clear its entry in the buffered directory. */
    method TakeTable(p: nat, dir0: Table, i: nat, t: nat) returns (dir: Table)
      requires Core(p) && p in dirs && dirs[p] == dir0 && |dir0| == LEN && i < USER_TABLES
      requires dir0[i] != 0 && t == Frame(dir0[i])
      modifies this`owner, this`dirs, this`leaked, pages.words
      ensures Core(p) && dir == SetAt(dir0, i, 0) && dirs == old(dirs)[p := dir]
      ensures t !in old(pages.Free()) && pages.Free() == old(pages.Free()) + {t}
      ensures t in mem && (forall j :: 0 <= j < |mem[t]| ==> mem[t][j] == 0) ==> leaked == old(leaked)
      ensures OthersKept(old(owner), old(mem), owner, mem, p)
    {
      hide Consistent;
      hide PageAllocator.Free;
      ghost var s := View();
      TableDropped(s, all, p, i);
      if t in mem && forall j :: 0 <= j < |mem[t]| ==> mem[t][j] == 0 {
        NothingLost(s, all, p, i);
      }
      ghost var gone := Behind(owner, p, i);
      owner, leaked := owner - gone, leaked + (gone - {t});
      var ok := pages.FreePage(t);
      dir := SetAt(dir0, i, 0);
      dirs := dirs[p := dir];
      assert View() == TableGone(s, p, i);
    }

    /** One round of the shrinking loop: a page goes, and its table when it is the table's first page. */
    method UnmapHeapPage(p: nat, dir0: Table, v: nat) returns (dir: Table)
      requires Core(p) && p in dirs && dirs[p] == dir0 && |dir0| == LEN && HEAP_PAGE <= v < HEAP_LIMIT
               && Mapped(dir0, mem, v) != 0
      modifies this`mem, this`owner, this`dirs, this`leaked, pages.words
      ensures Core(p) && |dir| == LEN && dirs == old(dirs)[p := dir]
      ensures var f := Mapped(dir0, old(mem), v);
              f !in old(pages.Free()) &&
              if v % LEN == 0 then pages.Free() == old(pages.Free()) + {f} + {Frame(dir0[v / LEN])}
              else pages.Free() == old(pages.Free()) + {f}
      ensures RestKept(dir0, old(mem), dir, mem, v, HEAP_LIMIT) && Mapped(dir, mem, v) == 0
      ensures HeapUpTo(dir0, old(mem), v + 1) ==> HeapUpTo(dir, mem, v) && leaked == old(leaked)
      ensures OthersKept(old(owner), old(mem), owner, mem, p)
    {
      hide Consistent, HeapUpTo, OthersKept, RestKept;
      hide PageAllocator.Free;
      var i, j := v / LEN, v % LEN;
      forall k | 0 <= k < USER_TABLES && k != i
        ensures dir0[k] != 0 ==> Frame(dir0[k]) != Frame(dir0[i])
      {
        TablesDistinct(View(), all, p, i, k);
      }
      ghost var mem0, owner0 := mem, owner;
      var t := Frame(dir0[i]);
      var f := TakePage(p, i, j, t);
      dir := dir0;
      ghost var owner1 := owner;
      if HeapUpTo(dir0, mem0, v + 1) {
        HeapTopMapped(dir0, mem0, v);
      }
      if j == 0 {
        dir := TakeTable(p, dir, i, t);
        OthersKeptThen(owner0, mem0, owner1, mem, owner, mem, p);
      }
      if HeapUpTo(dir0, mem0, v + 1) {
        HeapShrunk(dir0, mem0, dir, mem, v);
      }
      ShrunkRest(dir0, mem0, dir, mem, v);
    }

    /** The heap of process `p` is in order and ends at page `n`. */
    ghost predicate HeapEnds(p: nat, n: nat)
      reads this
    {
      p in dirs && HeapUpTo(dirs[p], mem, n)
    }

    ghost predicate LowEnds(p: nat, n: nat)
      reads this
    {
      p in dirs && HeapLow(dirs[p], mem, n)
    }

    /** The segments and the stack of process `p` are mapped. */
    /** Process `p` has exactly the pages of its segments, its stack, and its heap up to `top`. */
    ghost predicate ProgramLoaded(p: nat, segs: seq<Segment>, top: nat)
      reads this
    {
      p in dirs && MappedPages(dirs[p], mem) == ProgramPages(segs, top)
    }

    /** The heap of process `p` is mapped up to its break. */
    ghost predicate LowOk(p: nat)
      reads this
    {
      p in brk && brk[p] % PGSIZE == 0 && LowEnds(p, brk[p] / PGSIZE)
    }

    /** The heap of process `p` is in order and ends at its break. */
    ghost predicate HeapOk(p: nat)
      reads this
    {
      p in brk && brk[p] % PGSIZE == 0 && HeapEnds(p, brk[p] / PGSIZE)
    }

    /** The growing loop: pages `from` to `to` of process `p` get frames. */
    method GrowHeap(p: nat, dir0: Table, from: nat, to: nat) returns (dir: Table)
      requires Core(p) && p in dirs && dirs[p] == dir0 && |dir0| == LEN && from <= to <= USER_PAGES
      requires |pages.Free()| >= 2 * (to - from)
      modifies this`mem, this`owner, this`dirs, this`leaked, pages`ptr, pages.words
      ensures Core(p) && |dir| == LEN && dirs == old(dirs)[p := dir]
              && |pages.Free()| >= |old(pages.Free())| - 2 * (to - from)
      ensures RestKept(dir0, old(mem), dir, mem, from, to)
      ensures MappedPages(dir, mem) == MappedPages(dir0, old(mem)) + Span(from, to)
      ensures |leaked| == |old(leaked)| + Shared(MappedPages(dir0, old(mem)), from, to)
      ensures HeapUpTo(dir0, old(mem), from) && to <= HEAP_LIMIT ==> HeapUpTo(dir, mem, to) && leaked == old(leaked)
      ensures HeapLow(dir0, old(mem), from) && to <= HEAP_LIMIT ==> HeapLow(dir, mem, to)
      ensures OthersKept(old(owner), old(mem), owner, mem, p)
    {
      hide Consistent, HeapUpTo, HeapLow, Mapped, MappedPages, Added, Shared, Span, OnlyPage, OthersKept, RestKept;
      hide PageAllocator.Free;
      ghost var mem0, owner0, free0 := mem, owner, |pages.Free()|;
      OthersSame(owner, mem, p);
      RestKeptSame(dir0, mem, from);
      ghost var pages0 := MappedPages(dir0, mem);
      AddedNone(pages0, from);
      dir := dir0;
      for v := from to to
        invariant Core(p) && |dir| == LEN && dirs == old(dirs)[p := dir] && |pages.Free()| >= free0 - 2 * (v - from)
        invariant RestKept(dir0, mem0, dir, mem, from, v)
        invariant Added(pages0, MappedPages(dir, mem), from, v)
        invariant |leaked| == |old(leaked)| + Shared(pages0, from, v)
        invariant HeapUpTo(dir0, mem0, from) && to <= HEAP_LIMIT ==> HeapUpTo(dir, mem, v) && leaked == old(leaked)
        invariant HeapLow(dir0, mem0, from) && to <= HEAP_LIMIT ==> HeapLow(dir, mem, v)
        invariant OthersKept(owner0, mem0, owner, mem, p)
      {
        ghost var owner1, mem1, dir1, pages1 := owner, mem, dir, MappedPages(dir, mem);
        FreeHigh(View(), all, p);
        SharedOn(pages0, pages1, from, v);
        dir := MapHeapPage(p, dir, v);
        AddedOn(pages0, pages1, MappedPages(dir, mem), from, v);
        if HeapLow(dir1, mem1, v) && v < HEAP_LIMIT {
          LowGrown(dir1, mem1, dir, mem, v);
        }
        RestKeptUp(dir0, mem0, dir1, mem1, dir, mem, from, v);
        OthersKeptThen(owner0, mem0, owner1, mem1, owner, mem, p);
      }
      AddedIs(pages0, MappedPages(dir, mem), from, to);
    }

    /** The shrinking loop, downwards from the top. */
    method ShrinkHeap(p: nat, dir0: Table, from: nat, to: nat) returns (dir: Table)
      requires Core(p) && p in dirs && dirs[p] == dir0 && HEAP_PAGE <= to <= from && HeapLow(dir0, mem, from)
      modifies this`mem, this`owner, this`dirs, this`leaked, pages.words
      ensures Core(p) && |dir| == LEN && dirs == old(dirs)[p := dir] && HeapLow(dir, mem, to)
      ensures HeapUpTo(dir0, old(mem), from) ==> HeapUpTo(dir, mem, to) && leaked == old(leaked)
      ensures pages.Free() >= old(pages.Free())
      ensures RestKept(dir0, old(mem), dir, mem, to, HEAP_LIMIT)
      ensures OthersKept(old(owner), old(mem), owner, mem, p)
    {
      hide Consistent, HeapUpTo, Mapped, OthersKept, RestKept;
      hide PageAllocator.Free;
      ghost var mem0, owner0 := mem, owner;
      OthersSame(owner, mem, p);
      RestSame(dir0, mem, from);
      dir := dir0;
      var top := from;
      while top > to
        invariant to <= top <= from && Core(p) && |dir| == LEN && dirs == old(dirs)[p := dir] && HeapLow(dir, mem, top)
        invariant HeapUpTo(dir0, mem0, from) ==> HeapUpTo(dir, mem, top) && leaked == old(leaked)
        invariant pages.Free() >= old(pages.Free())
        invariant RestKept(dir0, mem0, dir, mem, top, HEAP_LIMIT)
        invariant OthersKept(owner0, mem0, owner, mem, p)
      {
        LowTop(dir, mem, top - 1, top);
        hide HeapLow;
        ghost var owner1, mem1, dir1 := owner, mem, dir;
        top := top - 1;
        dir := UnmapHeapPage(p, dir, top);
        LowRest(dir1, mem1, dir, mem, top, top + 1);
        RestThen(dir0, mem0, dir1, mem1, dir, mem, top, top + 1);
        OthersKeptThen(owner0, mem0, owner1, mem1, owner, mem, p);
      }
    }

    /** The end of a mapping loop: the buffered directory goes back to its frame. */
    method WriteBack(p: nat, dir: Table)
      requires Core(p) && p in cr3 && dirs.Keys == cr3.Keys == brk.Keys && dirs[p] == dir
      modifies this`mem
      ensures Valid() && SameSpace(dir, old(mem), dir, mem)
      ensures SpacesKept(dirs, old(mem), dirs, mem, p)
    {
      hide Consistent, Settled, SameSpace;
      hide PageAllocator.Free;
      ghost var s, mem' := View(), mem[cr3[p] := dir];
      forall q | q in dirs ensures SameSpace(dirs[q], mem, dirs[q], mem') {
        SpaceAfterWriteBack(s, all, p, q);
      }
      WrittenBack(s, all, p);
      mem := mem[cr3[p] := dir];
    }

    /** Load the directory, map pages `from` to `to`, write it back. */
    method GrowTo(p: nat, from: nat, to: nat)
      requires Valid() && p in cr3 && HEAP_PAGE <= from <= to <= HEAP_LIMIT && |pages.Free()| >= 2 * (to - from)
      modifies this`mem, this`owner, this`dirs, this`leaked, pages`ptr, pages.words
      ensures Valid() && old(dirs).Keys <= dirs.Keys
      ensures |pages.Free()| >= |old(pages.Free())| - 2 * (to - from)
      ensures old(HeapEnds(p, from)) ==> HeapEnds(p, to) && leaked == old(leaked)
      ensures old(LowEnds(p, from)) ==> LowEnds(p, to)
      ensures HeapAdded(old(dirs), old(mem), dirs, mem, p, from, to)
      ensures |leaked| == |old(leaked)| + Shared(MappedPages(old(dirs)[p], old(mem)), from, to)
      ensures SpacesKept(old(dirs), old(mem), dirs, mem, p) && HeapOnly(old(dirs), old(mem), dirs, mem, p)
    {
      hide Consistent, Settled, HeapUpTo, HeapLow, Mapped, MappedPages, Span, Shared, OthersKept, RestKept, SpacesKept,
           SameSpace;
      hide PageAllocator.Free;
      ghost var s0 := View();
      AnyProcess(s0, all, 0, p);
      DirLen(s0, all, p);
      var dir0 := mem[cr3[p]];
      var dir := GrowHeap(p, dir0, from, to);
      ghost var mem1 := mem;
      OtherSpacesKept(s0, all, dirs, owner, mem, p);
      WriteBack(p, dir);
      SameSpaceMeans(dir, mem1, dir, mem, to);
      SamePages(dir, mem1, dir, mem);
      RestKeptWiden(dir0, s0.mem, dir, mem1, mem, from, to);
      SpacesKeptThen(s0.dirs, s0.mem, dirs, mem1, dirs, mem, p);
    }

    /** Load the directory, unmap pages `from` down to `to`, write it back. */
    method ShrinkTo(p: nat, from: nat, to: nat)
      requires Valid() && p in cr3 && LowEnds(p, from) && HEAP_PAGE <= to <= from <= HEAP_LIMIT
      modifies this`mem, this`owner, this`dirs, this`leaked, pages.words
      ensures Valid() && LowEnds(p, to) && pages.Free() >= old(pages.Free())
      ensures old(HeapEnds(p, from)) ==> HeapEnds(p, to) && leaked == old(leaked)
      ensures SpacesKept(old(dirs), old(mem), dirs, mem, p) && HeapOnly(old(dirs), old(mem), dirs, mem, p)
    {
      hide Consistent, Settled, HeapUpTo, HeapLow, Mapped, OthersKept, RestKept, SpacesKept, SameSpace;
      hide PageAllocator.Free;
      ghost var s0 := View();
      AnyProcess(s0, all, 0, p);
      DirLen(s0, all, p);
      var dir0 := mem[cr3[p]];
      var dir := ShrinkHeap(p, dir0, from, to);
      ghost var mem1 := mem;
      OtherSpacesKept(s0, all, dirs, owner, mem, p);
      WriteBack(p, dir);
      SameSpaceMeans(dir, mem1, dir, mem, to);
      RestKeptWiden(dir0, s0.mem, dir, mem1, mem, to, HEAP_LIMIT);
      SpacesKeptThen(s0.dirs, s0.mem, dirs, mem1, dirs, mem, p);
    }

    /** `sbrk_helper` for a heap that stays below the stack's table, shrinking only from above the base. */
    method SbrkHelper(p: nat, delta: int)
      requires Valid() && p in cr3 && LowOk(p)
      requires SbrkAllowed(brk, p, delta, |pages.Free()|)
      modifies this`mem, this`owner, this`dirs, this`leaked, this`brk, pages`ptr, pages.words
      ensures Valid() && LowOk(p) && BrkMoved(old(brk), brk, p, delta)
      ensures old(HeapOk(p)) ==> HeapOk(p) && leaked == old(leaked)
      ensures |pages.Free()| >= |old(pages.Free())| - SbrkFrames(delta)
      ensures SpacesKept(old(dirs), old(mem), dirs, mem, p)
      ensures HeapOnly(old(dirs), old(mem), dirs, mem, p)
    {
      hide Consistent, HeapUpTo, HeapLow, HeapOnly, SpacesKept, Rounded, Clamped;
      hide PageAllocator.Free;
      LowShape(dirs[p], mem, brk[p] / PGSIZE);
      SbrkPages(brk, p, delta, |pages.Free()|);
      var d := Rounded(delta);
      if d < 0 {
        d := Clamped(d, brk[p]);
      }
      var end: nat := brk[p] + d;
      var from, to := brk[p] / PGSIZE, end / PGSIZE;
      if d < 0 {
        ghost var free := pages.Free();
        ShrinkTo(p, from, to);
        SubsetSize(free, pages.Free());
      } else {
        GrowTo(p, from, to);
      }
      MoveBreak(p, to);
    }

    /** One round of the segment loop of `exec_helper`: map the page unless it is mapped. */
    method MapSegmentPage(p: nat, dir0: Table, v: nat) returns (dir: Table)
      requires Core(p) && p in dirs && dirs[p] == dir0 && |dir0| == LEN && v < USER_PAGES && |pages.Free()| >= 2
      modifies this`mem, this`owner, this`dirs, this`leaked, pages`ptr, pages.words
      ensures Core(p) && |dir| == LEN && dirs == old(dirs)[p := dir] && |pages.Free()| >= |old(pages.Free())| - 2
      ensures leaked == old(leaked) && (NoneAbove(dir0) && v < HEAP_PAGE ==> NoneAbove(dir))
      ensures MappedPages(dir, mem) == MappedPages(dir0, old(mem)) + {v}
      ensures OthersKept(old(owner), old(mem), owner, mem, p)
    {
      hide Consistent, OthersKept, MappedPages, NoneAbove, OnlyPage, Mapped;
      hide PageAllocator.Free;
      ghost var mem0, owner0 := mem, owner;
      var i, j := v / LEN, v % LEN;
      var t;
      dir, t := EnsureTable(p, dir0, i);
      StaysBelow(dir0, dir, v);
      assert |pages.Free()| >= |old(pages.Free())| - 1;
      if mem[t][j] == 0 {
        ghost var mem1, owner1 := mem, owner;
        TablesApart(View(), all, p, i);
        FreeHigh(View(), all, p);
        var f := PutPage(p, i, j, t, 7);
        OthersKeptThen(owner0, mem0, owner1, mem1, owner, mem, p);
        FrameOfEntry(f, 7);
        StepSets(dir0, mem0, dir, mem1, v, t, Entry(f, 7));
        EntrySetOnlyPage(dir0, mem0, dir, mem, v, t, Entry(f, 7));
        OnlyPageAdds(dir0, mem0, dir, mem, v);
      } else {
        EntryMapped(View(), all, p, v);
      }
    }

    /** All pages of one segment. */
    method MapSegment(p: nat, dir0: Table, seg: Segment) returns (dir: Table)
      requires Core(p) && p in dirs && dirs[p] == dir0 && |dir0| == LEN && EndPage(seg) <= USER_PAGES
      requires |pages.Free()| >= 2 * (EndPage(seg) - FirstPage(seg))
      modifies this`mem, this`owner, this`dirs, this`leaked, pages`ptr, pages.words
      ensures Core(p) && |dir| == LEN && dirs == old(dirs)[p := dir]
      ensures |pages.Free()| >= |old(pages.Free())| - 2 * (EndPage(seg) - FirstPage(seg))
      ensures leaked == old(leaked) && (NoneAbove(dir0) && EndPage(seg) <= HEAP_PAGE ==> NoneAbove(dir))
      ensures MappedPages(dir, mem) == MappedPages(dir0, old(mem)) + Span(FirstPage(seg), EndPage(seg))
      ensures OthersKept(old(owner), old(mem), owner, mem, p)
    {
      hide Consistent, OthersKept, NoneAbove, MappedPages, Added, Span, FirstPage, EndPage;
      hide PageAllocator.Free;
      ghost var mem0, owner0, free0, pages0 := mem, owner, |pages.Free()|, MappedPages(dir0, mem);
      OthersSame(owner, mem, p);
      AddedNone(pages0, FirstPage(seg));
      dir := dir0;
      for v := FirstPage(seg) to EndPage(seg)
        invariant Core(p) && |dir| == LEN && dirs == old(dirs)[p := dir]
        invariant |pages.Free()| >= free0 - 2 * (v - FirstPage(seg))
        invariant leaked == old(leaked) && (NoneAbove(dir0) && EndPage(seg) <= HEAP_PAGE ==> NoneAbove(dir))
        invariant Added(pages0, MappedPages(dir, mem), FirstPage(seg), v)
        invariant OthersKept(owner0, mem0, owner, mem, p)
      {
        ghost var mem1, owner1, pages1 := mem, owner, MappedPages(dir, mem);
        dir := MapSegmentPage(p, dir, v);
        AddedOn(pages0, pages1, MappedPages(dir, mem), FirstPage(seg), v);
        OthersKeptThen(owner0, mem0, owner1, mem1, owner, mem, p);
      }
      AddedIs(pages0, MappedPages(dir, mem), FirstPage(seg), EndPage(seg));
    }

    /** The segments of the program, one after the other. */
    method MapSegments(p: nat, dir0: Table, segs: seq<Segment>) returns (dir: Table)
      requires Core(p) && p in dirs && dirs[p] == dir0 && |dir0| == LEN
      requires forall k :: 0 <= k < |segs| ==> EndPage(segs[k]) <= USER_PAGES
      requires |pages.Free()| >= 2 * SegPages(segs)
      modifies this`mem, this`owner, this`dirs, this`leaked, pages`ptr, pages.words
      ensures Core(p) && |dir| == LEN && dirs == old(dirs)[p := dir]
      ensures |pages.Free()| >= |old(pages.Free())| - 2 * SegPages(segs) && leaked == old(leaked)
      ensures NoneAbove(dir0) && BelowHeap(segs) ==> NoneAbove(dir)
      ensures MappedPages(dir, mem) == MappedPages(dir0, old(mem)) + SegSet(segs)
      ensures OthersKept(old(owner), old(mem), owner, mem, p)
    {
      hide Consistent, OthersKept, NoneAbove, MappedPages, Span;
      hide PageAllocator.Free;
      ghost var mem0, owner0, free0, pages0 := mem, owner, |pages.Free()|, MappedPages(dir0, mem);
      OthersSame(owner, mem, p);
      dir := dir0;
      for m := 0 to |segs|
        invariant Core(p) && |dir| == LEN && dirs == old(dirs)[p := dir]
        invariant |pages.Free()| >= free0 - 2 * SegPages(segs[..m]) && leaked == old(leaked)
        invariant NoneAbove(dir0) && BelowHeap(segs) ==> NoneAbove(dir)
        invariant MappedPages(dir, mem) == pages0 + SegSet(segs[..m])
        invariant OthersKept(owner0, mem0, owner, mem, p)
      {
        hide SegSet;
        SegPagesPrefix(segs, m);
        SegSetOn(segs, m);
        UnionThen(pages0, SegSet(segs[..m]), Span(FirstPage(segs[m]), EndPage(segs[m])));
        ghost var mem1, owner1 := mem, owner;
        dir := MapSegment(p, dir, segs[m]);
        OthersKeptThen(owner0, mem0, owner1, mem1, owner, mem, p);
      }
      assert segs[..|segs|] == segs;
    }

    /** The user stack page and the two kernel stack pages below it. */
    method MapStack(p: nat, dir0: Table) returns (dir: Table)
      requires Core(p) && p in dirs && dirs[p] == dir0 && |dir0| == LEN && |pages.Free()| >= 4
      modifies this`mem, this`owner, this`dirs, this`leaked, pages`ptr, pages.words
      ensures Core(p) && |dir| == LEN && dirs == old(dirs)[p := dir] && |pages.Free()| >= |old(pages.Free())| - 4
      ensures NoneAbove(dir0) ==> leaked == old(leaked) && HeapUpTo(dir, mem, HEAP_PAGE)
      ensures StackFlags(dir, mem) && MappedPages(dir, mem) == MappedPages(dir0, old(mem)) + StackPages()
      ensures |leaked| == |old(leaked)| + |MappedPages(dir0, old(mem)) * StackPages()|
      ensures OthersKept(old(owner), old(mem), owner, mem, p)
    {
      hide Consistent, OthersKept, NoneAbove, HeapUpTo, MappedPages;
      hide PageAllocator.Free;
      ghost var mem0, owner0 := mem, owner;
      StackEntry(dir0);
      var t;
      dir, t := EnsureTable(p, dir0, STACK_TABLE);
      assert |pages.Free()| >= |old(pages.Free())| - 1;
      TablesApart(View(), all, p, STACK_TABLE);
      TableAddsNothing(dir0, mem0, dir, mem, STACK_TABLE, t);
      ThreeShared(MappedPages(dir, mem), USER_PAGES - 1, USER_PAGES - 2, USER_PAGES - 3);
      ghost var mem1, owner1 := mem, owner;
      PutStackPages(p, dir, t);
      OthersKeptThen(owner0, mem0, owner1, mem1, owner, mem, p);
      if NoneAbove(dir0) {
        NoHeapYet(dir0, dir, mem, Entry(t, 7));
      }
    }

    method PutStackPages(p: nat, dir: Table, t: nat)
      requires Core(p) && p in dirs && dirs[p] == dir && |dir| == LEN && |pages.Free()| >= 3
      requires dir[STACK_TABLE] != 0 && t == Frame(dir[STACK_TABLE]) && t in mem && |mem[t]| == LEN
      modifies this`mem, this`owner, this`leaked, pages`ptr, pages.words
      ensures Core(p) && |pages.Free()| == |old(pages.Free())| - 3
      ensures StackFlags(dir, mem) && MappedPages(dir, mem) == MappedPages(dir, old(mem)) + StackPages()
      ensures var was := MappedPages(dir, old(mem));
              |leaked| == |old(leaked)| + (if USER_PAGES - 1 in was then 1 else 0)
                          + (if USER_PAGES - 2 in was then 1 else 0) + (if USER_PAGES - 3 in was then 1 else 0)
      ensures old(mem)[t] == EMPTY ==> leaked == old(leaked)
      ensures OthersKept(old(owner), old(mem), owner, mem, p)
    {
      hide Consistent, OthersKept, MappedPages;
      hide PageAllocator.Free;
      ghost var mem0, owner0 := mem, owner;
      PutStackPage(p, dir, t, LEN - 1, 7);
      ghost var mem1, owner1 := mem, owner;
      PutStackPage(p, dir, t, LEN - 2, 3);
      OthersKeptThen(owner0, mem0, owner1, mem1, owner, mem, p);
      mem1, owner1 := mem, owner;
      PutStackPage(p, dir, t, LEN - 3, 3);
      OthersKeptThen(owner0, mem0, owner1, mem1, owner, mem, p);
    }

    /** One stack page: its entry is written whatever was there. */
    method PutStackPage(p: nat, dir: Table, t: nat, j: nat, flags: nat)
      requires Core(p) && p in dirs && dirs[p] == dir && |dir| == LEN && j < LEN && pages.Free() != {}
      requires dir[STACK_TABLE] != 0 && t == Frame(dir[STACK_TABLE]) && t in mem && |mem[t]| == LEN
               && (flags == 3 || flags == 7)
      modifies this`mem, this`owner, this`leaked, pages`ptr, pages.words
      ensures Core(p) && |pages.Free()| == |old(pages.Free())| - 1
      ensures t in mem && |mem[t]| == LEN && forall k :: 0 <= k < LEN && k != j ==> mem[t][k] == old(mem)[t][k]
      ensures mem[t][j] % PGSIZE == flags && (old(mem)[t][j] == 0 ==> leaked == old(leaked))
      ensures MappedPages(dir, mem) == MappedPages(dir, old(mem)) + {STACK_TABLE * LEN + j}
      ensures |leaked| == |old(leaked)| + if STACK_TABLE * LEN + j in MappedPages(dir, old(mem)) then 1 else 0
      ensures OthersKept(old(owner), old(mem), owner, mem, p)
    {
      hide Consistent, OthersKept, Mapped, MappedPages, OnlyPage;
      hide PageAllocator.Free;
      ghost var v, mem0 := STACK_TABLE * LEN + j, mem;
      StackPlace(j);
      EntryMapped(View(), all, p, v);
      TablesApart(View(), all, p, STACK_TABLE);
      FreeHigh(View(), all, p);
      var f := PutPage(p, STACK_TABLE, j, t, flags);
      FrameOfEntry(f, flags);
      StepSets(dir, mem0, dir, mem0, v, t, Entry(f, flags));
      EntrySetOnlyPage(dir, mem0, dir, mem, v, t, Entry(f, flags));
      OnlyPageAdds(dir, mem0, dir, mem, v);
    }

    /** Segments, stack, kernel half and directory frame of a new process. */
    method Load(p: nat, segs: seq<Segment>, kernelDir: Table)
      requires Valid() && p !in cr3 && |kernelDir| == LEN
      requires forall k :: 0 <= k < |segs| ==> EndPage(segs[k]) <= USER_PAGES
      requires |pages.Free()| >= 2 * SegPages(segs) + 5
      modifies this`mem, this`owner, this`dirs, this`leaked, this`cr3, this`brk, pages`ptr, pages.words
      ensures Valid() && cr3.Keys == old(cr3).Keys + {p} && brk == old(brk)[p := HEAP_BASE]
      ensures |pages.Free()| >= |old(pages.Free())| - 2 * SegPages(segs) - 5
      ensures old(dirs).Keys <= dirs.Keys && SpacesKept(old(dirs), old(mem), dirs, mem, p)
      ensures LowEnds(p, HEAP_PAGE) && (BelowHeap(segs) ==> HeapEnds(p, HEAP_PAGE) && leaked == old(leaked))
      ensures ProgramLoaded(p, segs, HEAP_PAGE)
      ensures |leaked| == |old(leaked)| + Overlap(segs, HEAP_PAGE)
    {
      hide Consistent, Settled, OthersKept, HeapUpTo, SpacesKept, MappedPages, ProgramPages, Overlap, BelowHeap,
           SegPages;
      hide PageAllocator.Free;
      ghost var s0 := View();
      KnownDirs(s0);
      var dir := LoadPages(p, segs);
      ghost var owner1, mem1 := owner, mem;
      InstallDirectory(p, dir, kernelDir);
      OthersKeptThen(s0.owner, s0.mem, owner1, mem1, owner, mem, p);
      OtherSpacesKept(s0, all, dirs, owner, mem, p);
      AnyProcess(View(), all, 0, p);
      DirLen(View(), all, p);
    }

    /** Segments and stack of a process that has no directory frame yet. */
    method LoadPages(p: nat, segs: seq<Segment>) returns (dir: Table)
      requires Valid() && p !in cr3
      requires forall k :: 0 <= k < |segs| ==> EndPage(segs[k]) <= USER_PAGES
      requires |pages.Free()| >= 2 * SegPages(segs) + 4
      modifies this`mem, this`owner, this`dirs, this`leaked, pages`ptr, pages.words
      ensures Core(p) && |dir| == LEN && dirs == old(dirs)[p := dir]
      ensures |pages.Free()| >= |old(pages.Free())| - 2 * SegPages(segs) - 4
      ensures BelowHeap(segs) ==> HeapUpTo(dir, mem, HEAP_PAGE) && leaked == old(leaked)
      ensures MappedPages(dir, mem) == ProgramPages(segs, HEAP_PAGE)
      ensures |leaked| == |old(leaked)| + Overlap(segs, HEAP_PAGE)
      ensures OthersKept(old(owner), old(mem), owner, mem, p)
    {
      hide Consistent, Settled, OthersKept, NoneAbove, HeapUpTo, MappedPages, SegSet, StackPages, ProgramPages, Overlap;
      hide BelowHeap, SegPages, StackFlags;
      hide PageAllocator.Free;
      ProcessBegun(View(), all, p);
      EmptyNoneAbove();
      NoPages(mem);
      JustLoaded(segs);
      dir := EMPTY;
      dirs := dirs[p := EMPTY];
      dir := MapSegments(p, dir, segs);
      ghost var mem1, owner1 := mem, owner;
      dir := MapStack(p, dir);
      OthersKeptThen(old(owner), old(mem), owner1, mem1, owner, mem, p);
    }

    /**
     * The address-space part of `exec_helper`: the loaded program and room for the arguments.
     * When the segments lie below the heap no frame is lost and the new heap is in order.
     */
    method Exec(p: nat, segs: seq<Segment>, kernelDir: Table, argLen: nat)
      requires Valid() && p !in cr3 && |kernelDir| == LEN && ExecAllowed(segs, argLen, |pages.Free()|)
      modifies this`mem, this`owner, this`dirs, this`leaked, this`cr3, this`brk, pages`ptr, pages.words
      ensures Valid() && cr3.Keys == old(cr3).Keys + {p}
      ensures p in brk && brk == old(brk)[p := brk[p]] && brk[p] == HEAP_BASE + Rounded(argLen)
      ensures |pages.Free()| >= |old(pages.Free())| - ExecFrames(segs, argLen)
      ensures SpacesKept(old(dirs), old(mem), dirs, mem, p)
      ensures LowOk(p) && (BelowHeap(segs) ==> HeapOk(p) && leaked == old(leaked))
      ensures ProgramLoaded(p, segs, brk[p] / PGSIZE)
      ensures |leaked| == |old(leaked)| + Overlap(segs, brk[p] / PGSIZE)
    {
      hide Consistent, Settled, HeapUpTo, HeapLow, SpacesKept, HeapOnly, BelowHeap, Rounded, MappedPages, Span, Shared,
           ProgramPages, Overlap;
      hide PageAllocator.Free;
      ArgPages(argLen);
      Load(p, segs, kernelDir);
      ghost var dirs1, mem1 := dirs, mem;
      var top := HEAP_PAGE + Rounded(argLen) / PGSIZE;
      GrowTo(p, HEAP_PAGE, top);
      SpacesKeptThen(old(dirs), old(mem), dirs1, mem1, dirs, mem, p);
      ThenGrown(segs, MappedPages(dirs1[p], mem1), MappedPages(dirs[p], mem), top);
      MoveBreak(p, top);
    }

    /** The break of a process whose pages end at `n`. */
    method MoveBreak(p: nat, n: nat)
      requires Valid() && p in cr3
      modifies this`brk
      ensures Valid() && p in brk && brk == old(brk)[p := n * PGSIZE] && brk[p] / PGSIZE == n
      ensures old(LowEnds(p, n)) ==> LowOk(p)
      ensures old(HeapEnds(p, n)) ==> HeapOk(p)
    {
      hide Consistent, Settled, HeapUpTo, HeapLow;
      hide PageAllocator.Free;
      PageOfBreak(n);
      brk := brk[p := n * PGSIZE];
    }

    /** Fill in the kernel half, give the directory its frame, and make the process known. */
    method InstallDirectory(p: nat, dir: Table, kernelDir: Table)
      requires Core(p) && p !in cr3 && p in dirs && dirs[p] == dir && |dir| == LEN == |kernelDir|
      requires dirs.Keys == cr3.Keys + {p} && brk.Keys == cr3.Keys && pages.Free() != {}
      modifies this`mem, this`owner, this`dirs, this`cr3, this`brk, pages`ptr, pages.words
      ensures Valid() && cr3.Keys == old(cr3).Keys + {p} && brk == old(brk)[p := HEAP_BASE]
      ensures |pages.Free()| == |old(pages.Free())| - 1
      ensures dirs.Keys == old(dirs).Keys && forall q :: q in old(dirs) && q != p ==> dirs[q] == old(dirs)[q]
      ensures HeapUpTo(dir, old(mem), HEAP_PAGE) ==> HeapEnds(p, HEAP_PAGE)
      ensures p in dirs && MappedPages(dirs[p], mem) == MappedPages(dir, old(mem))
      ensures OthersKept(old(owner), old(mem), owner, mem, p)
    {
      hide Consistent, Settled, HeapUpTo, OthersKept, WithKernel, MappedPages;
      hide PageAllocator.Free;
      ghost var s := View();
      var full := WithKernel(dir, kernelDir);
      var r := pages.Alloc();
      NotOwned(s, all, p, r);
      RootAdded(s, all, p, r, full);
      OthersKeptAdd(owner, mem, r, full, p);
      MappedInstalled(s, all, p, r, full);
      if HeapUpTo(dir, mem, HEAP_PAGE) {
        HeapInstalled(s, all, p, r, full, HEAP_PAGE);
      }
      Enter(p, r, full);
    }

    /** The finished directory is written to its frame, and the process gets its break. */
    method Enter(p: nat, r: nat, full: Table)
      requires pages.Valid()
      modifies this`mem, this`owner, this`dirs, this`cr3, this`brk
      ensures var s := old(View());
              View() == s.(dirs := s.dirs[p := full], mem := s.mem[r := full], owner := s.owner[r := Root(p)],
                    cr3 := s.cr3[p := r])
      ensures brk == old(brk)[p := HEAP_BASE]
    {
      hide PageAllocator.Free;
      mem, owner, dirs, cr3, brk := mem[r := full], owner[r := Root(p)], dirs[p := full], cr3[p := r],
                                    brk[p := HEAP_BASE];
    }
  }
}
