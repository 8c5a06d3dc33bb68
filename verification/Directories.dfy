/** Changing the directory graph: `sys_create`, `sys_link` and `sys_delete` (kernel/src/syscall.c). */
module Directories {
  import opened FsDefs
  import opened Paths

  /** A syscall returns a value, or the kernel ran into a fault on the way. */
  datatype SysResult = Ret(eax: int) | Crash

  // ------------------------------------------------------------ adding an entry

  /** The first unallocated inode from `i` on; `NUM_INODES` when there is none. */
  function FirstFree(inodes: seq<Inode>, i: nat): (n: nat)
    requires i <= |inodes|
    ensures i <= n <= |inodes|
    ensures n < |inodes| ==> inodes[n].ftype == Unallocated
    ensures forall j :: i <= j < n ==> inodes[j].ftype != Unallocated
    decreases |inodes| - i
  {
    if i == |inodes| || inodes[i].ftype == Unallocated then i else FirstFree(inodes, i + 1)
  }

  /** Store `ino` in slot `n` of the table and list it last in directory `p`. */
  function AddEntry(inodes: seq<Inode>, p: nat, n: nat, ino: Inode): (r: seq<Inode>)
    requires p < |inodes| && n < |inodes| && p != n
    requires inodes[p].head < |inodes[p].slots|
    ensures |r| == |inodes|
  {
    var dir := inodes[p];
    inodes[n := ino][p := dir.(slots := dir.slots[dir.head := n], head := dir.head + 1)]
  }

  /** The checks `sys_create` and `sys_link` share before they look the new name up. */
  predicate CanHold(dir: Inode, name: string) {
    && dir.ftype == Directory && dir.head < DIR_MAX_ENTRIES
    && |name| <= FILENAME_MAX_LEN - 1 && '/' !in name
  }

  /** Allocate an inode and list it in directory `p`, if the table has room. */
  function Insert(inodes: seq<Inode>, p: nat, name: string, kind: FileType, head: nat): (r: (SysResult, seq<Inode>))
    requires Table(inodes) && p < NUM_INODES && inodes[p].ftype == Directory && inodes[p].head < DIR_MAX_ENTRIES
    ensures |r.1| == NUM_INODES
  {
    var n := FirstFree(inodes, 0);
    if n == NUM_INODES then (Ret(-1), inodes)
    else
      (Ret(0), AddEntry(inodes, p, n,
                        inodes[n].(name := name, parent := p, valid := true, ftype := kind, head := head)))
  }

  /** What `sys_create` does in directory `p`, given what the new name resolves to there. */
  function CreateIn(inodes: seq<Inode>, p: nat, name: string, kind: FileType, there: Resolution)
    : (r: (SysResult, seq<Inode>))
    requires Table(inodes) && p < NUM_INODES
    ensures |r.1| == NUM_INODES
  {
    if !CanHold(inodes[p], name) then (Ret(-1), inodes)
    else
      match there
      case Fault => (Crash, inodes)
      case Found(_) => (Ret(-1), inodes)
      case Missing => Insert(inodes, p, name, kind, 0)
  }

  /** What `sys_link` does in directory `p`: a new symlink, or a new target for an existing one. */
  function LinkIn(inodes: seq<Inode>, p: nat, name: string, target: nat, there: Resolution)
    : (r: (SysResult, seq<Inode>))
    requires Table(inodes) && p < NUM_INODES
    requires there.Found? ==> there.idx < NUM_INODES
    ensures |r.1| == NUM_INODES
  {
    if !CanHold(inodes[p], name) then (Ret(-1), inodes)
    else
      match there
      case Fault => (Crash, inodes)
      case Missing => Insert(inodes, p, name, Symlink, target)
      case Found(l) =>
        if inodes[l].ftype != Symlink then (Ret(-1), inodes)
        else (Ret(0), inodes[l := inodes[l].(head := target)])
  }

  /** `sys_create` on the inode table. */
  function Create(inodes: seq<Inode>, cwd: nat, parentPath: string, name: string, kind: FileType)
    : (r: (SysResult, seq<Inode>))
    requires Table(inodes) && cwd < NUM_INODES
    ensures |r.1| == NUM_INODES
  {
    match Lookup(inodes, cwd, parentPath, true)
    case Fault => (Crash, inodes)
    case Missing => (Ret(-1), inodes)
    case Found(p) => CreateIn(inodes, p, name, kind, Lookup(inodes, p, name, true))
  }

  /** `sys_link` on the inode table. */
  function Link(inodes: seq<Inode>, cwd: nat, targetPath: string, dirPath: string, name: string)
    : (r: (SysResult, seq<Inode>))
    requires Table(inodes) && cwd < NUM_INODES
    ensures |r.1| == NUM_INODES
  {
    match Lookup(inodes, cwd, targetPath, true)
    case Fault => (Crash, inodes)
    case Missing => (Ret(-1), inodes)
    case Found(t) =>
      match Lookup(inodes, cwd, dirPath, true)
      case Fault => (Crash, inodes)
      case Missing => (Ret(-1), inodes)
      case Found(p) => LinkIn(inodes, p, name, t, Lookup(inodes, p, name, true))
  }

  /** No entry of `d` from slot `j` on is called `name`. */
  ghost predicate NotNamed(inodes: seq<Inode>, d: Inode, name: string, j: nat) {
    && (j < d.head ==> d.head <= |d.slots|)
    && forall k :: j <= k < d.head ==> d.slots[k] < |inodes| && inodes[d.slots[k]].name != name
  }

  lemma {:induction false} ScanMisses(inodes: seq<Inode>, d: Inode, name: string, j: nat)
    requires Scan(inodes, d, name, j) == Missing
    ensures NotNamed(inodes, d, name, j)
    decreases d.head - j
  {
    if j < d.head {
      ScanMisses(inodes, d, name, j + 1);
    }
  }

  /** A slash-free name is looked up in one round, also as the first component. */
  lemma LookupPlain(inodes: seq<Inode>, p: nat, name: string)
    requires p < |inodes| && '/' !in name && name != ""
    ensures Lookup(inodes, p, name, true) == Enter(inodes, p, name, true)
  {
    hide Enter, Lookup;
    assert name[0] in name;
    ComponentOfName(name);
    LookupUnfold(inodes, p, name, true, name, |name|);
    assert name[..|name|] == name && name[|name|..] == "";
    var r := Enter(inodes, p, name, true);
    if r.Found? {
      LookupOfSlashes(inodes, r.idx, "", "");
    }
  }

  lemma LookupOfNothing(inodes: seq<Inode>, p: nat)
    requires p < |inodes|
    ensures Lookup(inodes, p, "", true) == Found(p)
  {
    assert SkipSlashes("") == "";
  }

  /** A name that a directory does not resolve is legal and taken by none of its entries. */
  lemma NameIsFree(inodes: seq<Inode>, p: nat, name: string)
    requires p < |inodes| && CanHold(inodes[p], name)
    requires Lookup(inodes, p, name, true) == Missing
    ensures LegalName(name) && NotNamed(inodes, inodes[p], name, 0)
  {
    hide Lookup, Enter, NotNamed;
    if name == "" {
      LookupOfNothing(inodes, p);
    } else {
      LookupPlain(inodes, p, name);
      EnterMisses(inodes, p, name);
    }
  }

  lemma EnterMisses(inodes: seq<Inode>, p: nat, name: string)
    requires p < |inodes| && CanHold(inodes[p], name) && name != ""
    requires Enter(inodes, p, name, true) == Missing
    ensures LegalName(name) && NotNamed(inodes, inodes[p], name, 0)
  {
    ScanMisses(inodes, inodes[p], name, 0);
  }

  /** Adding a legally and freshly named inode in a free table slot keeps the tree well formed. */
  lemma AddEntryKeeps(inodes: seq<Inode>, p: nat, n: nat, ino: Inode)
    requires WellFormed(inodes) && p < NUM_INODES && n < NUM_INODES
    requires inodes[p].ftype == Directory && inodes[p].head < DIR_MAX_ENTRIES
    requires inodes[n].ftype == Unallocated
    requires |ino.slots| == NDIRECT && ino.ftype != Unallocated && ino.parent == p && LegalName(ino.name)
    requires ino.ftype == Directory ==> ino.head == 0
    requires NotNamed(inodes, inodes[p], ino.name, 0)
    ensures WellFormed(AddEntry(inodes, p, n, ino))
  {
    var r := AddEntry(inodes, p, n, ino);
    assert DirOk(inodes, p);
    forall d | 0 <= d < NUM_INODES && r[d].ftype == Directory
      ensures DirOk(r, d)
    {
      if d != n {
        AddEntryKeepsDir(inodes, p, n, ino, d);
      }
    }
  }

  lemma AddEntryKeepsDir(inodes: seq<Inode>, p: nat, n: nat, ino: Inode, d: nat)
    requires Table(inodes) && p < NUM_INODES && n < NUM_INODES && d < NUM_INODES && d != n
    requires inodes[p].ftype == Directory && inodes[p].head < DIR_MAX_ENTRIES && DirOk(inodes, d)
    requires 0 < n && inodes[n].ftype == Unallocated
    requires |ino.slots| == NDIRECT && ino.ftype != Unallocated && ino.parent == p && LegalName(ino.name)
    requires NotNamed(inodes, inodes[p], ino.name, 0)
    ensures DirOk(AddEntry(inodes, p, n, ino), d)
  {
    var r := AddEntry(inodes, p, n, ino);
    forall k | 0 <= k < inodes[d].head
      ensures EntryOk(r, d, inodes[d].slots[k]) && inodes[d].slots[k] != n
      ensures r[inodes[d].slots[k]].name == inodes[inodes[d].slots[k]].name
    {
      assert EntryOk(inodes, d, inodes[d].slots[k]);
    }
  }

  /** A new inode of the given kind, called `name`, is what `p` resolves that name to. */
  ghost predicate NewChild(inodes: seq<Inode>, inodes': seq<Inode>, p: nat, name: string, kind: FileType, head: nat)
    requires |inodes| == |inodes'| == NUM_INODES && p < NUM_INODES
  {
    var r := Lookup(inodes', p, "/" + name, false);
    && r.Found? && r.idx < NUM_INODES && inodes[r.idx].ftype == Unallocated
    && inodes'[r.idx] == inodes[r.idx].(name := name, parent := p, valid := true, ftype := kind, head := head)
    && forall i :: 0 <= i < NUM_INODES && i != r.idx && i != p ==> inodes'[i] == inodes[i]
  }

  lemma InsertKeeps(inodes: seq<Inode>, p: nat, name: string, kind: FileType, head: nat)
    requires Table(inodes) && WellFormed(inodes) && p < NUM_INODES && CanHold(inodes[p], name)
    requires Lookup(inodes, p, name, true) == Missing
    requires kind != Unallocated && (kind == Directory ==> head == 0)
    ensures var (res, inodes') := Insert(inodes, p, name, kind, head);
            && Table(inodes') && WellFormed(inodes')
            && (res != Ret(0) ==> inodes' == inodes)
            && (res == Ret(0) ==> NewChild(inodes, inodes', p, name, kind, head))
  {
    hide Lookup;
    var n := FirstFree(inodes, 0);
    if n < NUM_INODES {
      NameIsFree(inodes, p, name);
      var ino := inodes[n].(name := name, parent := p, valid := true, ftype := kind, head := head);
      AddEntryKeeps(inodes, p, n, ino);
      AddedResolves(inodes, p, n, ino);
    }
  }

  lemma AddedResolves(inodes: seq<Inode>, p: nat, n: nat, ino: Inode)
    requires Table(inodes) && p < NUM_INODES && n < NUM_INODES && p != n
    requires inodes[p].ftype == Directory && inodes[p].head < NDIRECT
    requires |ino.slots| == NDIRECT && WellFormed(AddEntry(inodes, p, n, ino))
    ensures Lookup(AddEntry(inodes, p, n, ino), p, "/" + ino.name, false) == Found(n)
  {
    hide Lookup, WellFormed;
    var r := AddEntry(inodes, p, n, ino);
    assert Entries(r[p])[inodes[p].head] == n;
    ChildResolves(r, p, n);
  }

  /** `sys_create` keeps the tree well formed, and on success the new name resolves to a new, empty inode. */
  lemma CreateKeeps(inodes: seq<Inode>, cwd: nat, parentPath: string, name: string, kind: FileType)
    requires Table(inodes) && WellFormed(inodes) && cwd < NUM_INODES && (kind == File || kind == Directory)
    ensures var (res, inodes') := Create(inodes, cwd, parentPath, name, kind);
            && Table(inodes') && WellFormed(inodes')
            && (res != Ret(0) ==> inodes' == inodes)
            && (res == Ret(0) ==>
                  && Lookup(inodes, cwd, parentPath, true).Found?
                  && NewChild(inodes, inodes', Lookup(inodes, cwd, parentPath, true).idx, name, kind, 0))
  {
    hide Lookup, WellFormed, NewChild;
    match Lookup(inodes, cwd, parentPath, true)
    case Found(p) =>
      if CanHold(inodes[p], name) && Lookup(inodes, p, name, true) == Missing {
        InsertKeeps(inodes, p, name, kind, 0);
      }
    case _ =>
  }

  /** Redirecting a symlink touches no directory. */
  lemma RetargetKeeps(inodes: seq<Inode>, l: nat, target: nat)
    requires WellFormed(inodes) && l < NUM_INODES && inodes[l].ftype == Symlink
    ensures WellFormed(inodes[l := inodes[l].(head := target)])
  {
    var r := inodes[l := inodes[l].(head := target)];
    forall d | 0 <= d < NUM_INODES && r[d].ftype == Directory
      ensures DirOk(r, d)
    {
      assert DirOk(inodes, d);
      forall k | 0 <= k < r[d].head ensures EntryOk(r, d, r[d].slots[k]) {
        assert EntryOk(inodes, d, inodes[d].slots[k]);
      }
    }
  }

  /**
   * `sys_link` keeps the tree well formed; on success the name resolves either to a new symlink
   * to the target or to the symlink that was there, now redirected to it.
   */
  lemma LinkKeeps(inodes: seq<Inode>, cwd: nat, targetPath: string, dirPath: string, name: string)
    requires Table(inodes) && WellFormed(inodes) && cwd < NUM_INODES
    ensures var (res, inodes') := Link(inodes, cwd, targetPath, dirPath, name);
            && Table(inodes') && WellFormed(inodes')
            && (res != Ret(0) ==> inodes' == inodes)
            && (res == Ret(0) ==>
                  var t, p := Lookup(inodes, cwd, targetPath, true), Lookup(inodes, cwd, dirPath, true);
                  && t.Found? && p.Found?
                  && (NewChild(inodes, inodes', p.idx, name, Symlink, t.idx) ||
                       Redirected(inodes, inodes', p.idx, name, t.idx)))
  {
    hide Lookup, WellFormed, NewChild;
    match Lookup(inodes, cwd, targetPath, true)
    case Found(t) =>
      match Lookup(inodes, cwd, dirPath, true) {
        case Found(p) =>
          if CanHold(inodes[p], name) {
            match Lookup(inodes, p, name, true)
            case Missing => InsertKeeps(inodes, p, name, Symlink, t);
            case Found(l) =>
              if inodes[l].ftype == Symlink {
                RetargetKeeps(inodes, l, t);
              }
            case _ =>
          }
        case _ =>
      }
    case _ =>
  }

  /** The symlink that `name` was in `p` now points to `target`; nothing else changed. */
  ghost predicate Redirected(inodes: seq<Inode>, inodes': seq<Inode>, p: nat, name: string, target: nat)
    requires |inodes| == |inodes'| == NUM_INODES && p < NUM_INODES
  {
    var l := Lookup(inodes, p, name, true);
    && l.Found? && l.idx < NUM_INODES && inodes[l.idx].ftype == Symlink
    && inodes' == inodes[l.idx := inodes[l.idx].(head := target)]
  }

  // ---------------------------------------------------------- removing an entry

  /** `entries` without any occurrence of `x`. */
  ghost function Without(entries: seq<nat>, x: nat): (r: seq<nat>)
    ensures x !in r && forall e :: e in r <==> e in entries && e != x
    ensures x !in entries ==> r == entries
  {
    if entries == [] then []
    else
      var front := Without(entries[..|entries| - 1], x);
      var last := entries[|entries| - 1];
      assert entries == entries[..|entries| - 1] + [last];
      if last == x then front else front + [last]
  }

  lemma {:induction false} WithoutMiddle(a: seq<nat>, b: seq<nat>, x: nat)
    ensures Without(a + [x] + b, x) == Without(a + b, x)
  {
    if b == [] {
      FrontOfConcat(a, [x]);
      assert a + [x] + b == a + [x] && a + b == a;
    } else {
      FrontOfConcat(a + [x], b);
      FrontOfConcat(a, b);
      WithoutMiddle(a, b[..|b| - 1], x);
    }
  }

  lemma FrontOfConcat(a: seq<nat>, b: seq<nat>)
    requires b != []
    ensures (a + b)[..|a + b| - 1] == a + b[..|b| - 1]
    ensures (a + b)[|a + b| - 1] == b[|b| - 1]
    ensures |b| == 1 ==> (a + b)[..|a + b| - 1] == a
  {
  }

  /** Distinct entries stay distinct and in order: each survivor sits at its place or one before it. */
  lemma WithoutDistinct(entries: seq<nat>, k: nat)
    requires k < |entries| && forall i, j :: 0 <= i < j < |entries| ==> entries[i] != entries[j]
    ensures Without(entries, entries[k]) == entries[..k] + entries[k + 1..]
  {
    var x := entries[k];
    assert entries == entries[..k] + [x] + entries[k + 1..];
    WithoutMiddle(entries[..k], entries[k + 1..], x);
    assert x !in entries[..k] + entries[k + 1..];
  }

  /** Directory `p` dropped every listing of `x`; nothing else changed. */
  ghost predicate Removed(inodes: seq<Inode>, inodes': seq<Inode>, p: nat, x: nat)
    requires Table(inodes) && p < NUM_INODES && inodes[p].head <= NDIRECT
  {
    && Table(inodes') && inodes'[p].head <= NDIRECT
    && inodes' == inodes[p := inodes[p].(slots := inodes'[p].slots, head := inodes'[p].head)]
    && Entries(inodes'[p]) == Without(Entries(inodes[p]), x)
  }

  /** What deletion leaves of the inode: free, or marked for the last `release_inode`. */
  function Dropped(ino: Inode): (r: Inode) {
    if ino.refs == 0 then ino.(ftype := Unallocated) else ino.(valid := false)
  }

  /** `x` is an entry of the directory its parent link names. */
  ghost predicate Listed(inodes: seq<Inode>, x: nat)
    requires Table(inodes) && x < NUM_INODES
  {
    && x != 0 && inodes[x].parent < NUM_INODES
    && inodes[inodes[x].parent].ftype == Directory && inodes[inodes[x].parent].head <= NDIRECT
    && x in Entries(inodes[inodes[x].parent])
  }

  /**
   * Deleting a listed inode that is not a non-empty directory keeps the tree well formed, and
   * its name no longer resolves in its parent.
   */
  lemma DeleteKeeps(inodes: seq<Inode>, mid: seq<Inode>, x: nat)
    requires Table(inodes) && WellFormed(inodes) && x < NUM_INODES && Listed(inodes, x)
    requires inodes[x].ftype == Directory ==> inodes[x].head == 0
    requires Removed(inodes, mid, inodes[x].parent, x)
    ensures Table(mid[x := Dropped(mid[x])]) && WellFormed(mid[x := Dropped(mid[x])])
    ensures Lookup(mid[x := Dropped(mid[x])], inodes[x].parent, "/" + inodes[x].name, false) == Missing
  {
    hide Lookup, LegalName, Without;
    var p := inodes[x].parent;
    var r := mid[x := Dropped(mid[x])];
    var k :| 0 <= k < inodes[p].head && inodes[p].slots[k] == x;
    assert DirOk(inodes, p) && p != x;
    WithoutDistinct(Entries(inodes[p]), k);
    DeletedMisses(inodes, r, x, p, k);
    DeleteKeepsDirs(inodes, r, x, p, k);
  }

  lemma DeleteKeepsDirs(inodes: seq<Inode>, r: seq<Inode>, x: nat, p: nat, k: nat)
    requires Table(inodes) && WellFormed(inodes) && Table(r)
    requires 0 < x < NUM_INODES && p < NUM_INODES && p != x && inodes[x].parent == p
    requires inodes[p].head <= NDIRECT && k < inodes[p].head && inodes[p].slots[k] == x
    requires r[x] == Dropped(inodes[x])
    requires r[p].head <= NDIRECT && r[p] == inodes[p].(slots := r[p].slots, head := r[p].head)
    requires Entries(r[p]) == Entries(inodes[p])[..k] + Entries(inodes[p])[k + 1..]
    requires forall i :: 0 <= i < NUM_INODES && i != x && i != p ==> r[i] == inodes[i]
    ensures WellFormed(r)
  {
    forall d | 0 <= d < NUM_INODES && r[d].ftype == Directory
      ensures DirOk(r, d)
    {
      DeleteKeepsDir(inodes, r, x, p, k, d);
    }
  }

  lemma DeleteKeepsDir(inodes: seq<Inode>, r: seq<Inode>, x: nat, p: nat, k: nat, d: nat)
    requires Table(inodes) && Table(r) && d < NUM_INODES && DirOk(inodes, d)
    requires x < NUM_INODES && p < NUM_INODES && p != x && inodes[x].parent == p
    requires inodes[p].head <= NDIRECT && k < inodes[p].head && inodes[p].slots[k] == x
    requires r[x] == Dropped(inodes[x]) && r[d].ftype == Directory
    requires r[p].head <= NDIRECT && r[p] == inodes[p].(slots := r[p].slots, head := r[p].head)
    requires Entries(r[p]) == Entries(inodes[p])[..k] + Entries(inodes[p])[k + 1..]
    requires forall i :: 0 <= i < NUM_INODES && i != x && i != p ==> r[i] == inodes[i]
    ensures DirOk(r, d)
  {
    forall m | 0 <= m < inodes[d].head && inodes[d].slots[m] != x
      ensures EntryOk(r, d, inodes[d].slots[m])
      ensures r[inodes[d].slots[m]].name == inodes[inodes[d].slots[m]].name
    {
      assert EntryOk(inodes, d, inodes[d].slots[m]);
    }
    if d == p {
      forall m | 0 <= m < r[p].head
        ensures r[p].slots[m] == inodes[p].slots[if m < k then m else m + 1]
      {
        assert Entries(r[p])[m] == Entries(inodes[p])[if m < k then m else m + 1];
      }
    } else {
      forall m | 0 <= m < inodes[d].head
        ensures inodes[d].slots[m] != x
      {
        assert EntryOk(inodes, d, inodes[d].slots[m]);
      }
    }
  }

  lemma DeletedMisses(inodes: seq<Inode>, r: seq<Inode>, x: nat, p: nat, k: nat)
    requires Table(inodes) && Table(r) && p < NUM_INODES && DirOk(inodes, p)
    requires x < NUM_INODES && p != x && inodes[p].ftype == Directory
    requires inodes[p].head <= NDIRECT && k < inodes[p].head && inodes[p].slots[k] == x
    requires r[p].head <= NDIRECT && r[p] == inodes[p].(slots := r[p].slots, head := r[p].head)
    requires Entries(r[p]) == Entries(inodes[p])[..k] + Entries(inodes[p])[k + 1..]
    requires forall i :: 0 <= i < NUM_INODES && i != x && i != p ==> r[i] == inodes[i]
    ensures Lookup(r, p, "/" + inodes[x].name, false) == Missing
  {
    hide Lookup, WellFormed, Enter;
    var name := inodes[x].name;
    forall m | 0 <= m < r[p].head
      ensures r[p].slots[m] < NUM_INODES && r[r[p].slots[m]].name != name
    {
      var m' := if m < k then m else m + 1;
      assert Entries(r[p])[m] == Entries(inodes[p])[m'];
      assert EntryOk(inodes, p, inodes[p].slots[m']);
    }
    ScanAll(r, r[p], name, 0);
    assert EntryOk(inodes, p, inodes[p].slots[k]);
    EnterPlain(r, p, name);
    LookupName(r, p, name);
  }

  /** Entering a directory with a legal name scans its entries. */
  lemma EnterPlain(inodes: seq<Inode>, d: nat, name: string)
    requires d < |inodes| && inodes[d].ftype == Directory && LegalName(name)
    ensures Enter(inodes, d, name, false) == Scan(inodes, inodes[d], name, 0)
  {
  }

  lemma {:induction false} ScanAll(inodes: seq<Inode>, d: Inode, name: string, j: nat)
    requires NotNamed(inodes, d, name, j)
    ensures Scan(inodes, d, name, j) == Missing
    decreases d.head - j
  {
    if j < d.head {
      ScanAll(inodes, d, name, j + 1);
    }
  }
}
