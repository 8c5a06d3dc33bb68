/**
 * Two-level page tables and who owns which physical frame.  A directory or table entry is a
 * frame address plus flag bits (32-bit paging, section 4.3 of volume 3A of the Intel SDM).
 */
module Paging {
  import opened PageAlloc

  const PGSIZE: nat := 0x1000
  const LEN: nat := 1024          // entries of a directory or a table
  const USER_TABLES: nat := 768   // HIGHER_HALF_BASE >> 22
  const STACK_TABLE: nat := USER_TABLES - 1

  /** The one place a frame is used in: a directory, or entry `i` of it, or entry `j` of that table. */
  datatype Slot = Root(p: nat) | Tab(p: nat, i: nat) | Page(p: nat, i: nat, j: nat)

  type Table = seq<nat>
  type Dirs = map<nat, Table>
  type Mem = map<nat, Table>
  type Owner = map<nat, Slot>

  const EMPTY: Table := seq(LEN, _ => 0)

  /** An entry: frame address with user (7) or supervisor (3) flags. */
  function Entry(frame: nat, flags: nat): (w: nat) {
    frame * PGSIZE + flags
  }

  function Frame(w: nat): (f: nat) {
    w / PGSIZE
  }

  lemma FrameOfEntry(f: nat, flags: nat)
    requires flags == 3 || flags == 7
    ensures Frame(Entry(f, flags)) == f && Entry(f, flags) != 0 && Entry(f, flags) % 2 == 1
  {
  }

  /** Entry `j` of the table behind entry `i` of process `p` is empty or owns its frame. */
  ghost predicate PageOk(table: Table, owner: Owner, p: nat, i: nat, j: nat)
    requires j < |table|
  {
    var w := table[j];
    w == 0 ||
    (Frame(w) > 0 && (w == Entry(Frame(w), 7) || w == Entry(Frame(w), 3))
     && Frame(w) in owner && owner[Frame(w)] == Page(p, i, j))
  }

  ghost predicate TableOk(table: Table, owner: Owner, p: nat, i: nat) {
    |table| == LEN && forall j :: 0 <= j < LEN ==> PageOk(table, owner, p, i, j)
  }

  /** Entry `i` of the directory of `p` is empty or owns its table. */
  ghost predicate DirEntryOk(dir: Table, mem: Mem, owner: Owner, p: nat, i: nat)
    requires i < |dir|
  {
    var w := dir[i];
    w == 0 ||
    (Frame(w) > 0 && w == Entry(Frame(w), 7) && Frame(w) in owner && owner[Frame(w)] == Tab(p, i)
     && Frame(w) in mem && TableOk(mem[Frame(w)], owner, p, i))
  }

  ghost predicate DirOk(dir: Table, mem: Mem, owner: Owner, p: nat) {
    |dir| == LEN && forall i :: 0 <= i < USER_TABLES ==> DirEntryOk(dir, mem, owner, p, i)
  }

  /** The frame is really used where its owner says. */
  ghost predicate UsedAt(dirs: Dirs, mem: Mem, slot: Slot, f: nat) {
    && slot.p in dirs
    && (slot.Root? ||
        (slot.i < USER_TABLES && slot.i < |dirs[slot.p]| && dirs[slot.p][slot.i] != 0
         && var t := Frame(dirs[slot.p][slot.i]);
            if slot.Tab? then t == f
            else t in mem && slot.j < |mem[t]| && mem[t][slot.j] != 0 && Frame(mem[t][slot.j]) == f))
  }

  /**
   * The frame invariant: every frame reachable from a directory is owned by exactly the slot it
   * is reached through, and every owned frame is reached.
   */
  ghost predicate Frames(dirs: Dirs, mem: Mem, owner: Owner) {
    && (forall p :: p in dirs ==> DirOk(dirs[p], mem, owner, p))
    && (forall f :: f in owner ==> UsedAt(dirs, mem, owner[f], f))
  }

  /** Frame in use at a slot other than a directory; 0 when the slot is empty. */
  ghost function FrameAt(dirs: Dirs, mem: Mem, slot: Slot): (f: nat)
    requires slot.p in dirs && !slot.Root? && slot.i < |dirs[slot.p]|
  {
    var t := Frame(dirs[slot.p][slot.i]);
    if slot.Tab? then t
    else if t in mem && slot.j < |mem[t]| then Frame(mem[t][slot.j]) else 0
  }

  /** The frames reachable from live processes are pairwise distinct. */
  lemma FramesDistinct(dirs: Dirs, mem: Mem, owner: Owner, a: Slot, b: Slot)
    requires Frames(dirs, mem, owner)
    requires a.p in dirs && !a.Root? && a.i < USER_TABLES && (a.Page? ==> a.j < LEN)
    requires b.p in dirs && !b.Root? && b.i < USER_TABLES && (b.Page? ==> b.j < LEN)
    requires dirs[a.p][a.i] != 0 && dirs[b.p][b.i] != 0
    requires FrameAt(dirs, mem, a) != 0 && FrameAt(dirs, mem, a) == FrameAt(dirs, mem, b)
    ensures a == b && FrameAt(dirs, mem, a) in owner
  {
    SlotOwned(dirs, mem, owner, a);
    SlotOwned(dirs, mem, owner, b);
  }

  lemma SlotOwned(dirs: Dirs, mem: Mem, owner: Owner, a: Slot)
    requires Frames(dirs, mem, owner)
    requires a.p in dirs && !a.Root? && a.i < USER_TABLES && (a.Page? ==> a.j < LEN)
    requires dirs[a.p][a.i] != 0 && FrameAt(dirs, mem, a) != 0
    ensures FrameAt(dirs, mem, a) in owner && owner[FrameAt(dirs, mem, a)] == a
  {
    assert DirOk(dirs[a.p], mem, owner, a.p);
    assert DirEntryOk(dirs[a.p], mem, owner, a.p, a.i);
    if a.Page? {
      var t := mem[Frame(dirs[a.p][a.i])];
      assert PageOk(t, owner, a.p, a.i, a.j);
    }
  }

  // ---------------------------------------------------------------- primitives

  function SetDir(dirs: Dirs, p: nat, i: nat, w: nat): (r: Dirs)
    requires p in dirs && i < |dirs[p]|
  {
    dirs[p := SetAt(dirs[p], i, w)]
  }

  function SetPte(mem: Mem, t: nat, j: nat, w: nat): (r: Mem)
    requires t in mem && j < |mem[t]|
  {
    mem[t := SetAt(mem[t], j, w)]
  }

  function SetAt(table: Table, i: nat, w: nat): (r: Table)
    requires i < |table|
    ensures |r| == |table| && r[i] == w && forall k :: 0 <= k < |table| && k != i ==> r[k] == table[k]
  {
    table[i := w]
  }

  /** The slot is entry `i` of `p`, or lies behind it. */
  predicate Under(s: Slot, p: nat, i: nat) {
    !s.Root? && s.p == p && s.i == i
  }

  /** Only what belongs to entry `i` of `p` changed. */
  ghost predicate SameBut(dirs: Dirs, mem: Mem, owner: Owner, dirs': Dirs, mem': Mem, owner': Owner, p: nat, i: nat) {
    && dirs'.Keys == dirs.Keys
    && (forall q :: q in dirs ==> |dirs'[q]| == |dirs[q]|)
    && (forall q, k :: q in dirs && 0 <= k < |dirs[q]| && (q, k) != (p, i) ==> dirs'[q][k] == dirs[q][k])
    && (forall g :: g in owner && !Under(owner[g], p, i) ==> g in owner' && owner'[g] == owner[g])
    && (forall g :: g in owner && g in mem && !Under(owner[g], p, i) ==> g in mem' && mem'[g] == mem[g])
  }

  /** Then every other entry is as good as before. */
  lemma OtherEntryKept(dirs: Dirs, mem: Mem, owner: Owner, dirs': Dirs, mem': Mem, owner': Owner, p: nat, i: nat,
                       q: nat, k: nat)
    requires Frames(dirs, mem, owner) && SameBut(dirs, mem, owner, dirs', mem', owner', p, i)
    requires q in dirs && k < USER_TABLES && (q, k) != (p, i)
    ensures k < |dirs'[q]| && DirEntryOk(dirs'[q], mem', owner', q, k)
  {
    assert DirOk(dirs[q], mem, owner, q) && DirEntryOk(dirs[q], mem, owner, q, k);
    if dirs[q][k] != 0 {
      var t := mem[Frame(dirs[q][k])];
      forall j | 0 <= j < LEN
        ensures PageOk(t, owner', q, k, j)
      {
        assert PageOk(t, owner, q, k, j);
      }
    }
  }

  lemma OtherFrameKept(dirs: Dirs, mem: Mem, owner: Owner, dirs': Dirs, mem': Mem, owner': Owner, p: nat, i: nat,
                       g: nat)
    requires Frames(dirs, mem, owner) && SameBut(dirs, mem, owner, dirs', mem', owner', p, i)
    requires g in owner && !Under(owner[g], p, i)
    ensures UsedAt(dirs', mem', owner[g], g)
  {
    var s := owner[g];
    assert UsedAt(dirs, mem, s, g);
    if s.Page? {
      assert DirOk(dirs[s.p], mem, owner, s.p) && DirEntryOk(dirs[s.p], mem, owner, s.p, s.i);
    }
  }

  /** So a change under one entry needs a look at that entry and its frames only. */
  lemma LocalChange(dirs: Dirs, mem: Mem, owner: Owner, dirs': Dirs, mem': Mem, owner': Owner, p: nat, i: nat)
    requires Frames(dirs, mem, owner) && SameBut(dirs, mem, owner, dirs', mem', owner', p, i)
    requires p in dirs && i < USER_TABLES && i < |dirs'[p]| && DirEntryOk(dirs'[p], mem', owner', p, i)
    requires forall g :: g in owner' && (g !in owner || Under(owner[g], p, i)) ==> UsedAt(dirs', mem', owner'[g], g)
    ensures Frames(dirs', mem', owner')
  {
    forall q | q in dirs'
      ensures DirOk(dirs'[q], mem', owner', q)
    {
      assert DirOk(dirs[q], mem, owner, q);
      forall k | 0 <= k < USER_TABLES
        ensures DirEntryOk(dirs'[q], mem', owner', q, k)
      {
        if (q, k) != (p, i) {
          OtherEntryKept(dirs, mem, owner, dirs', mem', owner', p, i, q, k);
        }
      }
    }
    forall g | g in owner'
      ensures UsedAt(dirs', mem', owner'[g], g)
    {
      if g in owner && !Under(owner[g], p, i) {
        OtherFrameKept(dirs, mem, owner, dirs', mem', owner', p, i, g);
      }
    }
  }

  /** A fresh, zeroed table behind an empty directory entry. */
  lemma AddTable(dirs: Dirs, mem: Mem, owner: Owner, p: nat, i: nat, f: nat)
    requires Frames(dirs, mem, owner) && p in dirs && i < USER_TABLES && |dirs[p]| == LEN && dirs[p][i] == 0
    requires f > 0 && f !in owner
    ensures Frames(SetDir(dirs, p, i, Entry(f, 7)), mem[f := EMPTY], owner[f := Tab(p, i)])
  {
    var dirs', mem', owner' := SetDir(dirs, p, i, Entry(f, 7)), mem[f := EMPTY], owner[f := Tab(p, i)];
    FrameOfEntry(f, 7);
    assert TableOk(EMPTY, owner', p, i);
    NothingUnder(dirs, mem, owner, p, i);
    LocalChange(dirs, mem, owner, dirs', mem', owner', p, i);
  }

  /** Behind an empty directory entry no frame is owned. */
  lemma NothingUnder(dirs: Dirs, mem: Mem, owner: Owner, p: nat, i: nat)
    requires Frames(dirs, mem, owner) && p in dirs && i < |dirs[p]| && dirs[p][i] == 0
    ensures forall g :: g in owner ==> !Under(owner[g], p, i)
  {
    forall g | g in owner
      ensures !Under(owner[g], p, i)
    {
      assert UsedAt(dirs, mem, owner[g], g);
    }
  }

  /** A fresh page in an empty place of a table. */
  lemma AddPage(dirs: Dirs, mem: Mem, owner: Owner, p: nat, i: nat, j: nat, f: nat, flags: nat)
    requires Frames(dirs, mem, owner) && p in dirs && i < USER_TABLES && j < LEN && |dirs[p]| == LEN
    requires dirs[p][i] != 0 && Frame(dirs[p][i]) in mem && |mem[Frame(dirs[p][i])]| == LEN
    requires mem[Frame(dirs[p][i])][j] == 0
    requires f > 0 && f !in owner && (flags == 3 || flags == 7)
    ensures Frames(dirs, SetPte(mem, Frame(dirs[p][i]), j, Entry(f, flags)), owner[f := Page(p, i, j)])
  {
    var t := Frame(dirs[p][i]);
    var mem', owner' := SetPte(mem, t, j, Entry(f, flags)), owner[f := Page(p, i, j)];
    FrameOfEntry(f, flags);
    assert DirOk(dirs[p], mem, owner, p) && DirEntryOk(dirs[p], mem, owner, p, i);
    forall k | 0 <= k < LEN
      ensures PageOk(mem'[t], owner', p, i, k)
    {
      assert PageOk(mem[t], owner, p, i, k);
    }
    forall g | g in owner' && (g !in owner || Under(owner[g], p, i))
      ensures UsedAt(dirs, mem', owner'[g], g)
    {
      if g != f {
        assert UsedAt(dirs, mem, owner[g], g);
      }
    }
    LocalChange(dirs, mem, owner, dirs, mem', owner', p, i);
  }

  /** A page leaves its table. */
  lemma DropPage(dirs: Dirs, mem: Mem, owner: Owner, p: nat, i: nat, j: nat)
    requires Frames(dirs, mem, owner) && p in dirs && i < USER_TABLES && j < LEN && |dirs[p]| == LEN
    requires dirs[p][i] != 0 && Frame(dirs[p][i]) in mem && |mem[Frame(dirs[p][i])]| == LEN
    requires mem[Frame(dirs[p][i])][j] != 0
    ensures var t := Frame(dirs[p][i]);
            var f := Frame(mem[t][j]);
            f in owner && owner[f] == Page(p, i, j) && Frames(dirs, SetPte(mem, t, j, 0), owner - {f})
  {
    var t := Frame(dirs[p][i]);
    var f := Frame(mem[t][j]);
    assert DirOk(dirs[p], mem, owner, p) && DirEntryOk(dirs[p], mem, owner, p, i) && PageOk(mem[t], owner, p, i, j);
    var mem', owner' := SetPte(mem, t, j, 0), owner - {f};
    forall k | 0 <= k < LEN
      ensures PageOk(mem'[t], owner', p, i, k)
    {
      assert PageOk(mem[t], owner, p, i, k);
    }
    forall g | g in owner' && Under(owner[g], p, i)
      ensures UsedAt(dirs, mem', owner'[g], g)
    {
      assert UsedAt(dirs, mem, owner[g], g);
    }
    LocalChange(dirs, mem, owner, dirs, mem', owner', p, i);
  }

  /** The frames behind entry `i` of process `p`: the table and its pages. */
  ghost function Behind(owner: Owner, p: nat, i: nat): (fs: set<nat>) {
    set g | g in owner && Under(owner[g], p, i)
  }

  /** A table leaves its directory, and with it all its pages. */
  lemma DropTable(dirs: Dirs, mem: Mem, owner: Owner, p: nat, i: nat)
    requires Frames(dirs, mem, owner) && p in dirs && i < USER_TABLES && |dirs[p]| == LEN && dirs[p][i] != 0
    ensures var t := Frame(dirs[p][i]);
            t in owner && owner[t] == Tab(p, i) && Frames(SetDir(dirs, p, i, 0), mem, owner - Behind(owner, p, i))
  {
    assert DirOk(dirs[p], mem, owner, p) && DirEntryOk(dirs[p], mem, owner, p, i);
    LocalChange(dirs, mem, owner, SetDir(dirs, p, i, 0), mem, owner - Behind(owner, p, i), p, i);
  }

  /** An empty table has no pages. */
  lemma EmptyTable(dirs: Dirs, mem: Mem, owner: Owner, p: nat, i: nat)
    requires Frames(dirs, mem, owner) && p in dirs && i < USER_TABLES && |dirs[p]| == LEN && dirs[p][i] != 0
    requires Frame(dirs[p][i]) in mem
    requires forall j :: 0 <= j < |mem[Frame(dirs[p][i])]| ==> mem[Frame(dirs[p][i])][j] == 0
    ensures Behind(owner, p, i) == {Frame(dirs[p][i])}
  {
    assert DirOk(dirs[p], mem, owner, p) && DirEntryOk(dirs[p], mem, owner, p, i);
    forall g | g in Behind(owner, p, i) ensures g == Frame(dirs[p][i]) {
      assert UsedAt(dirs, mem, owner[g], g);
    }
  }

  /** The contents of a directory frame are not looked at through any table. */
  lemma RootWrite(dirs: Dirs, mem: Mem, owner: Owner, r: nat, dir: Table)
    requires Frames(dirs, mem, owner) && (r in owner ==> owner[r].Root?)
    ensures Frames(dirs, mem[r := dir], owner)
  {
    var mem' := mem[r := dir];
    forall q | q in dirs ensures DirOk(dirs[q], mem', owner, q) {
      assert DirOk(dirs[q], mem, owner, q);
      forall k | 0 <= k < USER_TABLES ensures DirEntryOk(dirs[q], mem', owner, q, k) {
        assert DirEntryOk(dirs[q], mem, owner, q, k);
      }
    }
    forall g | g in owner ensures UsedAt(dirs, mem', owner[g], g) {
      var s := owner[g];
      assert UsedAt(dirs, mem, s, g);
      if s.Page? {
        assert DirOk(dirs[s.p], mem, owner, s.p) && DirEntryOk(dirs[s.p], mem, owner, s.p, s.i);
      }
    }
  }

  /** A new process starts with an empty directory. */
  lemma AddDir(dirs: Dirs, mem: Mem, owner: Owner, p: nat)
    requires Frames(dirs, mem, owner) && p !in dirs
    ensures Frames(dirs[p := EMPTY], mem, owner)
  {
    forall g | g in owner ensures UsedAt(dirs[p := EMPTY], mem, owner[g], g) {
      assert UsedAt(dirs, mem, owner[g], g);
    }
  }

  /** The kernel half of a directory belongs to nobody. */
  lemma KernelHalf(dirs: Dirs, mem: Mem, owner: Owner, p: nat, dir: Table)
    requires Frames(dirs, mem, owner) && p in dirs
    requires |dir| == LEN == |dirs[p]| && forall i :: 0 <= i < USER_TABLES ==> dir[i] == dirs[p][i]
    ensures Frames(dirs[p := dir], mem, owner)
  {
    forall k | 0 <= k < USER_TABLES ensures DirEntryOk(dir, mem, owner, p, k) {
      assert DirOk(dirs[p], mem, owner, p) && DirEntryOk(dirs[p], mem, owner, p, k);
    }
    forall g | g in owner ensures UsedAt(dirs[p := dir], mem, owner[g], g) {
      assert UsedAt(dirs, mem, owner[g], g);
    }
  }

  /** A directory gets its frame. */
  lemma AddRoot(dirs: Dirs, mem: Mem, owner: Owner, p: nat, r: nat)
    requires Frames(dirs, mem, owner) && p in dirs && r !in owner
    ensures Frames(dirs, mem, owner[r := Root(p)])
  {
    var owner' := owner[r := Root(p)];
    forall q | q in dirs ensures DirOk(dirs[q], mem, owner', q) {
      assert DirOk(dirs[q], mem, owner, q);
      forall k | 0 <= k < USER_TABLES ensures DirEntryOk(dirs[q], mem, owner', q, k) {
        assert DirEntryOk(dirs[q], mem, owner, q, k);
        if dirs[q][k] != 0 {
          var t := mem[Frame(dirs[q][k])];
          forall j | 0 <= j < LEN ensures PageOk(t, owner', q, k, j) {
            assert PageOk(t, owner, q, k, j);
          }
        }
      }
    }
  }

  /** A process leaves with all its frames. */
  lemma DropProcess(dirs: Dirs, mem: Mem, owner: Owner, p: nat)
    requires Frames(dirs, mem, owner)
    ensures Frames(dirs - {p}, mem, map g | g in owner && owner[g].p != p :: owner[g])
  {
    var dirs' := dirs - {p};
    var owner': Owner := map g | g in owner && owner[g].p != p :: owner[g];
    forall q | q in dirs' ensures DirOk(dirs'[q], mem, owner', q) {
      assert DirOk(dirs[q], mem, owner, q);
      forall k | 0 <= k < USER_TABLES ensures DirEntryOk(dirs[q], mem, owner', q, k) {
        assert DirEntryOk(dirs[q], mem, owner, q, k);
        if dirs[q][k] != 0 {
          var t := mem[Frame(dirs[q][k])];
          forall j | 0 <= j < LEN ensures PageOk(t, owner', q, k, j) {
            assert PageOk(t, owner, q, k, j);
          }
        }
      }
    }
    forall g | g in owner' ensures UsedAt(dirs', mem, owner'[g], g) {
      assert UsedAt(dirs, mem, owner[g], g);
    }
  }
}
