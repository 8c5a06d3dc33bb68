/**
 * The filesystem syscalls as the kernel runs them, on the inode table in place (kernel/src/syscall.c,
 * kernel/src/fs.c).
 */
module Namespace {
  import opened FsDefs
  import opened Paths
  import opened Directories
  import opened Harden

  /** What `sys_delete` returns: it refuses a missing path and a filled directory. */
  function DeleteResult(inodes: seq<Inode>, found: Resolution): (res: SysResult)
    requires |inodes| == NUM_INODES && (found.Found? ==> found.idx < NUM_INODES)
    ensures res == Ret(0) ==> found.Found?
  {
    match found
    case Missing => Ret(-1)
    case Fault => Crash
    case Found(x) =>
      if inodes[x].ftype == Directory && inodes[x].head != 0 then Ret(-1)
      else if inodes[x].parent >= NUM_INODES || inodes[inodes[x].parent].head > NDIRECT then Crash
      else Ret(0)
  }

  /** `i--` and `i++` on a u32. */
  function Pred32(i: nat): (r: nat) {
    if i == 0 then U32 - 1 else i - 1
  }

  function Succ32(i: nat): (r: nat) {
    if i == U32 - 1 then 0 else i + 1
  }

  lemma StepBackAndOn(i: nat)
    requires i < U32
    ensures Succ32(Pred32(i)) == i
  {
  }

  /** `sys_delete` on inode `x`: the listing goes, then the inode is freed or marked. */
  ghost predicate DeletedAs(inodes: seq<Inode>, mid: seq<Inode>, inodes': seq<Inode>, x: nat)
    requires Table(inodes)
  {
    && x < NUM_INODES && inodes[x].parent < NUM_INODES && inodes[inodes[x].parent].head <= NDIRECT
    && (inodes[x].ftype == Directory ==> inodes[x].head == 0)
    && Removed(inodes, mid, inodes[x].parent, x)
    && inodes' == mid[x := Dropped(mid[x])]
  }

  lemma PassedOver(slots: seq<nat>, i: nat, x: nat)
    requires i < |slots| < U32 && x !in slots[..i] && slots[i] != x
    ensures x !in slots[..i + 1] && Succ32(i) == i + 1
  {
    assert slots[..i + 1] == slots[..i] + [slots[i]];
  }

  lemma GapClosed(slots: seq<nat>, slots': seq<nat>, i: nat, n: nat, x: nat)
    requires i < n <= |slots| == |slots'| && slots[i] == x
    requires slots'[..n - 1] == slots[..i] + slots[i + 1..n]
    ensures Without(slots'[..n - 1], x) == Without(slots[..n], x)
    ensures slots'[..i] == slots[..i]
  {
    assert slots[..n] == slots[..i] + [x] + slots[i + 1..n];
    WithoutMiddle(slots[..i], slots[i + 1..n], x);
    assert slots'[..i] == slots'[..n - 1][..i];
  }

  class InodeTable {
    var inodes: seq<Inode>

    constructor (table: seq<Inode>)
      requires Table(table)
      ensures inodes == table
    {
      inodes := table;
    }

    /** `alloc_inode`: the first unallocated inode. */
    method AllocInode() returns (n: nat)
      requires Table(inodes)
      ensures n == FirstFree(inodes, 0)
    {
      n := 0;
      while n < NUM_INODES
        invariant n <= NUM_INODES && FirstFree(inodes, 0) == FirstFree(inodes, n)
      {
        if inodes[n].ftype == Unallocated {
          return;
        }
        n := n + 1;
      }
    }

    /** The separator check on a new name. */
    method HasSlash(name: string) returns (b: bool)
      ensures b <==> '/' in name
    {
      for i := 0 to |name|
        invariant '/' !in name[..i]
      {
        if name[i] == '/' {
          return true;
        }
      }
      b := false;
    }

    /** The checks and the allocation `sys_create` and `sys_link` share. */
    method Place(p: nat, name: string, kind: FileType, head: nat) returns (res: SysResult)
      requires Table(inodes) && p < NUM_INODES && CanHold(inodes[p], name)
      modifies this
      ensures (res, inodes) == Insert(old(inodes), p, name, kind, head)
    {
      var n := AllocInode();
      if n == NUM_INODES {
        return Ret(-1);
      }
      inodes := inodes[n := inodes[n].(name := name)];
      inodes := inodes[n := inodes[n].(parent := p)];
      inodes := inodes[n := inodes[n].(valid := true)];
      inodes := inodes[n := inodes[n].(ftype := kind, head := head)];
      var last := inodes[p].head;
      inodes := inodes[p := inodes[p].(slots := inodes[p].slots[last := n])];
      inodes := inodes[p := inodes[p].(head := last + 1)];
      assert inodes == AddEntry(old(inodes), p, n,
                                old(inodes)[n].(name := name, parent := p, valid := true, ftype := kind, head := head));
      res := Ret(0);
    }

    method SysCreate(cwd: nat, parentPath: string, name: string, kind: FileType) returns (res: SysResult)
      requires Table(inodes) && cwd < NUM_INODES && (kind == File || kind == Directory)
      modifies this
      ensures (res, inodes) == Create(old(inodes), cwd, parentPath, name, kind)
      ensures WellFormed(old(inodes)) ==> WellFormed(inodes)
    {
      hide Lookup, Insert, WellFormed;
      ghost var table := inodes;
      if WellFormed(table) {
        CreateKeeps(table, cwd, parentPath, name, kind);
      }
      var parent := Lookup(inodes, cwd, parentPath, true);
      if parent.Fault? {
        return Crash;
      } else if parent.Missing? {
        return Ret(-1);
      }
      var p := parent.idx;
      if inodes[p].ftype != Directory || inodes[p].head >= DIR_MAX_ENTRIES || |name| > FILENAME_MAX_LEN - 1 {
        return Ret(-1);
      }
      var slash := HasSlash(name);
      if slash {
        return Ret(-1);
      }
      var there := Lookup(inodes, p, name, true);
      if there.Fault? {
        return Crash;
      } else if there.Found? {
        return Ret(-1);
      }
      res := Place(p, name, kind, 0);
    }

    method SysLink(cwd: nat, targetPath: string, dirPath: string, name: string) returns (res: SysResult)
      requires Table(inodes) && cwd < NUM_INODES
      modifies this
      ensures (res, inodes) == Link(old(inodes), cwd, targetPath, dirPath, name)
      ensures WellFormed(old(inodes)) ==> WellFormed(inodes)
    {
      hide Lookup, Insert, WellFormed;
      ghost var table := inodes;
      if WellFormed(table) {
        LinkKeeps(table, cwd, targetPath, dirPath, name);
      }
      var target := Lookup(inodes, cwd, targetPath, true);
      if !target.Found? {
        return if target.Fault? then Crash else Ret(-1);
      }
      var dir := Lookup(inodes, cwd, dirPath, true);
      if !dir.Found? {
        return if dir.Fault? then Crash else Ret(-1);
      }
      var p := dir.idx;
      if inodes[p].ftype != Directory || inodes[p].head >= DIR_MAX_ENTRIES || |name| > FILENAME_MAX_LEN - 1 {
        return Ret(-1);
      }
      var slash := HasSlash(name);
      if slash {
        return Ret(-1);
      }
      var there := Lookup(inodes, p, name, true);
      if there.Fault? {
        return Crash;
      } else if there.Found? && inodes[there.idx].ftype != Symlink {
        return Ret(-1);
      } else if there.Missing? {
        res := Place(p, name, Symlink, target.idx);
      } else {
        inodes := inodes[there.idx := inodes[there.idx].(head := target.idx)];
        res := Ret(0);
      }
    }

    /** The inner loop of the removal: close the gap at `i` in the first `n` slots. */
    method CloseGap(slots: seq<nat>, i: nat, n: nat) returns (r: seq<nat>)
      requires i < n <= |slots|
      ensures |r| == |slots| && r[..n - 1] == slots[..i] + slots[i + 1..n]
    {
      r := slots[i := 0];
      var j := i;
      while j < n - 1
        invariant i <= j <= n - 1 && |r| == |slots|
        invariant forall m :: 0 <= m < i ==> r[m] == slots[m]
        invariant forall m :: i <= m < j ==> r[m] == slots[m + 1]
        invariant forall m :: j < m < n ==> r[m] == slots[m]
      {
        r := r[j := r[j + 1]];
        j := j + 1;
      }
    }

    /**
     * The removal loop of `sys_delete`.  After a removal the index steps back, below zero for
     * the first entry, and wraps around to look at the same slot again.
     */
    method RemoveAll(slots0: seq<nat>, n0: nat, x: nat) returns (slots: seq<nat>, n: nat)
      requires n0 <= |slots0| < U32
      ensures n <= |slots| == |slots0| && slots[..n] == Without(slots0[..n0], x)
    {
      hide Without, Pred32, Succ32;
      slots, n := slots0, n0;
      var i := 0;
      while i < n
        invariant 0 <= i <= n <= |slots| == |slots0|
        invariant x !in slots[..i]
        invariant Without(slots[..n], x) == Without(slots0[..n0], x)
        decreases n - i
      {
        if slots[i] == x {
          var closed := CloseGap(slots, i, n);
          GapClosed(slots, closed, i, n, x);
          slots, n := closed, n - 1;
          StepBackAndOn(i);
          i := Pred32(i);
        } else {
          PassedOver(slots, i, x);
        }
        i := Succ32(i);
      }
    }

    method RemoveEntry(p: nat, x: nat)
      requires Table(inodes) && p < NUM_INODES && inodes[p].head <= NDIRECT
      modifies this
      ensures Removed(old(inodes), inodes, p, x)
    {
      var slots, n := RemoveAll(inodes[p].slots, inodes[p].head, x);
      inodes := inodes[p := inodes[p].(slots := slots, head := n)];
    }

    /** `free_inode`: its calls of `free_block` change nothing, so only the type changes. */
    method FreeInode(x: nat)
      requires x < |inodes|
      modifies this
      ensures inodes == old(inodes)[x := old(inodes)[x].(ftype := Unallocated)]
    {
      inodes := inodes[x := inodes[x].(ftype := Unallocated)];
    }

    /**
     * `sys_delete`.  For a target that its parent lists, the tree stays well formed and the
     * name is gone; `mid` is the table after the removal loop.
     */
    method SysDelete(cwd: nat, path: string) returns (res: SysResult, ghost mid: seq<Inode>)
      requires Table(inodes) && cwd < NUM_INODES
      modifies this
      ensures Table(inodes) && res == DeleteResult(old(inodes), Lookup(old(inodes), cwd, path, true))
      ensures res != Ret(0) ==> inodes == old(inodes)
      ensures res == Ret(0) ==>
        var found := Lookup(old(inodes), cwd, path, true);
        && DeletedAs(old(inodes), mid, inodes, found.idx)
        && (WellFormed(old(inodes)) && Listed(old(inodes), found.idx) ==>
              && WellFormed(inodes)
              && Lookup(inodes, old(inodes)[found.idx].parent, "/" + old(inodes)[found.idx].name, false) == Missing)
    {
      hide Lookup, WellFormed;
      mid := inodes;
      var found := Lookup(inodes, cwd, path, true);
      if !found.Found? {
        return if found.Fault? then Crash else Ret(-1), mid;
      }
      var x := found.idx;
      if inodes[x].ftype == Directory && inodes[x].head != 0 {
        return Ret(-1), mid;
      }
      var p := inodes[x].parent;
      if p >= NUM_INODES || inodes[p].head > NDIRECT {
        return Crash, mid;
      }
      RemoveEntry(p, x);
      mid := inodes;
      if inodes[x].refs == 0 {
        FreeInode(x);
      } else {
        inodes := inodes[x := inodes[x].(valid := false)];
      }
      res := Ret(0);
      if WellFormed(old(inodes)) && Listed(old(inodes), x) {
        DeleteKeeps(old(inodes), mid, x);
      }
    }

    /** `sys_harden`. */
    method SysHarden(cwd: nat, path: string) returns (res: SysResult)
      requires Table(inodes) && cwd < NUM_INODES
      modifies this
      ensures Table(inodes)
      ensures res != Ret(0) ==> inodes == old(inodes)
      ensures res == Ret(0) ==>
        var found := Lookup(old(inodes), cwd, path, true);
        && found.Found? && CanHarden(old(inodes), found.idx) && inodes == Hardened(old(inodes), found.idx)
        && forall x :: 0 <= x < NUM_INODES ==>
             (SameMeaning(old(inodes), inodes, x) <==> !AtHopLimit(old(inodes), found.idx, x))
    {
      hide Lookup, SameMeaning, Ends;
      var found := Lookup(inodes, cwd, path, true);
      if !found.Found? {
        return if found.Fault? then Crash else Ret(-1);
      }
      var s := found.idx;
      if inodes[s].ftype != Symlink {
        return Ret(-1);
      }
      var t := inodes[s].head;
      if t >= NUM_INODES {
        return Crash;
      }
      if inodes[t].ftype != File && inodes[t].ftype != Directory {
        return Ret(-1);
      }
      var name := inodes[s].name;
      inodes := inodes[s := inodes[t]];
      inodes := inodes[s := inodes[s].(name := name)];
      inodes := inodes[t := inodes[t].(ftype := Symlink)];
      inodes := inodes[t := inodes[t].(head := s)];
      res := Ret(0);
      assert inodes == Hardened(old(inodes), s);
      forall x | 0 <= x < NUM_INODES {
        HardenPreserves(old(inodes), s, x);
      }
    }
  }
}
