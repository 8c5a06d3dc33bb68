/**
 * Symlink following, path resolution and path printing
 * (kernel/src/fs.c, `path_helper` of kernel/src/syscall.c).
 */
module Paths {
  import opened FsDefs
  import opened Seqs

  // ---------------------------------------------------------------- symlinks

  /** The inode `follow_symlink` ends on when it has already made `depth` hops to `i`. */
  function Follow(inodes: seq<Inode>, i: nat, depth: nat): (r: Resolution)
    ensures r.Found? ==> r.idx < |inodes| && inodes[r.idx].ftype != Symlink
    decreases SYMLINK_RECURSION_LIMIT + 1 - depth
  {
    if i >= |inodes| then Fault
    else if inodes[i].ftype != Symlink then Found(i)
    else
      var t := inodes[i].head;
      if t >= |inodes| then Fault
      else if inodes[t].ftype == Unallocated then Missing
      else if depth + 1 > SYMLINK_RECURSION_LIMIT then Missing
      else Follow(inodes, t, depth + 1)
  }

  /** `follow_symlink` as the kernel runs it. */
  method FollowSymlink(inodes: seq<Inode>, start: nat) returns (r: Resolution)
    ensures r == Follow(inodes, start, 0)
  {
    if start >= |inodes| {
      return Fault;
    }
    var link := start;
    var depth := 0;
    while inodes[link].ftype == Symlink
      invariant 0 <= link < |inodes| && depth <= SYMLINK_RECURSION_LIMIT
      invariant Follow(inodes, start, 0) == Follow(inodes, link, depth)
      decreases SYMLINK_RECURSION_LIMIT - depth
    {
      depth := depth + 1;
      var target := inodes[link].head;
      if target >= |inodes| {
        return Fault;
      }
      link := target;
      if inodes[link].ftype == Unallocated {
        return Missing;
      }
      if depth > SYMLINK_RECURSION_LIMIT {
        return Missing;
      }
    }
    r := Found(link);
  }

  // ------------------------------------------------------------------ lookup

  function SkipSlashes(path: string): (r: string)
    ensures |r| <= |path|
    ensures r != "" ==> r[0] != '/'
  {
    if path != "" && path[0] == '/' then SkipSlashes(path[1..]) else path
  }

  /** Only slashes in front are skipped. */
  lemma {:induction false} SkippedIsSuffix(path: string)
    ensures SkipSlashes(path) == path[|path| - |SkipSlashes(path)|..]
    ensures forall k :: 0 <= k < |path| - |SkipSlashes(path)| ==> path[k] == '/'
    decreases |path|
  {
    if path != "" && path[0] == '/' {
      SkippedIsSuffix(path[1..]);
      var n := |path| - |SkipSlashes(path)|;
      SplitAfterFirst(path, n);
      forall k | 0 < k < n ensures path[k] == '/' {
        assert path[1..][k - 1] == '/';
      }
    }
  }

  /** Length of the component a path starts with. */
  function ComponentLen(path: string): (n: nat)
    ensures n <= |path|
    ensures forall k :: 0 <= k < n ==> path[k] != '/'
    ensures n < |path| ==> path[n] == '/'
  {
    if path == "" || path[0] == '/' then 0 else 1 + ComponentLen(path[1..])
  }

  /** The first entry of directory `d`, from slot `j` on, whose name is `name`. */
  function Scan(inodes: seq<Inode>, d: Inode, name: string, j: nat): (r: Resolution)
    ensures r.Found? ==> r.idx < |inodes| && inodes[r.idx].name == name
                         && exists k :: j <= k < d.head && k < |d.slots| && d.slots[k] == r.idx
    decreases d.head - j
  {
    if j >= d.head then Missing
    else if j >= |d.slots| || d.slots[j] >= |inodes| then Fault
    else if inodes[d.slots[j]].name == name then Found(d.slots[j])
    else Scan(inodes, d, name, j + 1)
  }

  /** The inode one path component names in the directory `b`. */
  function Step(inodes: seq<Inode>, b: nat, component: string, first: bool): (r: Resolution)
    requires b < |inodes|
    ensures r.Found? ==> r.idx < |inodes|
  {
    if component == "." then Found(b)
    else if component == ".." then
      if inodes[b].parent < |inodes| then Found(inodes[b].parent) else Fault
    else if component == FS_ROOT_PATH then
      if first && 0 < |inodes| then Found(0) else Missing
    else Scan(inodes, inodes[b], component, 0)
  }

  /**
   * One round of `get_inode_by_path_helper`: follow `base`, then look `component` up in it.
   * A dangling symlink makes the kernel dereference null, and a component of 28 characters
   * or more overruns its buffer.
   */
  function Enter(inodes: seq<Inode>, base: nat, component: string, first: bool): (r: Resolution)
    requires base < |inodes|
    ensures r.Found? ==> r.idx < |inodes|
  {
    match Follow(inodes, base, 0)
    case Missing => Fault
    case Fault => Fault
    case Found(b) =>
      if inodes[b].ftype == File then Missing
      else if |component| >= FILENAME_MAX_LEN then Fault
      else Step(inodes, b, component, first)
  }

  /** `get_inode_by_path_helper`. */
  function Lookup(inodes: seq<Inode>, base: nat, path: string, first: bool): (r: Resolution)
    requires base < |inodes|
    ensures r.Found? ==> r.idx < |inodes|
    decreases |path|
  {
    hide SkipSlashes, ComponentLen, Enter;
    var p := SkipSlashes(path);
    if p == "" then Found(base)
    else
      var n := ComponentLen(p);
      match Enter(inodes, base, p[..n], first)
      case Found(next) => Lookup(inodes, next, p[n..], false)
      case other => other
  }

  lemma {:induction false} SkipSlashesConcat(p: string, s: string)
    ensures SkipSlashes(p) != "" ==> SkipSlashes(p + s) == SkipSlashes(p) + s
    ensures SkipSlashes(p) == "" ==> SkipSlashes(p + s) == SkipSlashes(s)
  {
    if p == "" {
      assert p + s == s;
    } else if p[0] == '/' {
      assert (p + s)[1..] == p[1..] + s;
      SkipSlashesConcat(p[1..], s);
    }
  }

  lemma {:induction false} ComponentLenConcat(p: string, s: string)
    requires s == "" || s[0] == '/'
    ensures ComponentLen(p + s) == ComponentLen(p)
  {
    if p == "" {
      assert p + s == s;
    } else if p[0] != '/' {
      assert (p + s)[1..] == p[1..] + s;
      ComponentLenConcat(p[1..], s);
    }
  }

  /** What the recursion does with a path that still has a component. */
  lemma LookupUnfold(inodes: seq<Inode>, base: nat, path: string, first: bool, p: string, n: nat)
    requires base < |inodes|
    requires p == SkipSlashes(path) != "" && n == ComponentLen(p)
    ensures 0 < n <= |p| <= |path|
    ensures Lookup(inodes, base, path, first) ==
            match Enter(inodes, base, p[..n], first)
            case Found(next) => Lookup(inodes, next, p[n..], false)
            case other => other
  {
    hide Enter;
  }

  /** Resolving a path and then a continuation of it is resolving the two in one go. */
  lemma {:induction false} LookupConcat(inodes: seq<Inode>, base: nat, p: string, s: string, first: bool)
    requires base < |inodes|
    requires s == "" || s[0] == '/'
    requires SkipSlashes(p) != ""
    ensures Lookup(inodes, base, p + s, first) ==
            match Lookup(inodes, base, p, first)
            case Found(x) => Lookup(inodes, x, s, false)
            case other => other
    decreases |p|
  {
    hide Enter, Lookup;
    var q := SkipSlashes(p);
    var n := ComponentLen(q);
    SkipSlashesConcat(p, s);
    ComponentLenConcat(q, s);
    LookupUnfold(inodes, base, p, first, q, n);
    LookupUnfold(inodes, base, p + s, first, q + s, n);
    SplitOfConcat(q, s, n);
    match Enter(inodes, base, q[..n], first)
    case Found(next) =>
      if SkipSlashes(q[n..]) == "" {
        LookupOfSlashes(inodes, next, q[n..], s);
      } else {
        LookupConcat(inodes, next, q[n..], s, false);
      }
    case _ =>
  }

  lemma LookupOfSlashes(inodes: seq<Inode>, base: nat, slashes: string, s: string)
    requires base < |inodes| && SkipSlashes(slashes) == ""
    ensures Lookup(inodes, base, slashes + s, false) == Lookup(inodes, base, s, false)
    ensures Lookup(inodes, base, slashes, false) == Found(base)
  {
    SkipSlashesConcat(slashes, s);
  }

  // --------------------------------------------------------- well-formed trees

  /** A name the kernel can store and look up as one component. */
  ghost predicate LegalName(name: string) {
    && 1 <= |name| < FILENAME_MAX_LEN
    && '/' !in name
    && name != "." && name != ".." && name != FS_ROOT_PATH
  }

  /** What every directory keeps: distinct, allocated, legally and uniquely named entries that point back. */
  ghost predicate DirOk(inodes: seq<Inode>, d: nat)
    requires Table(inodes) && d < NUM_INODES
  {
    var dir := inodes[d];
    && dir.head <= DIR_MAX_ENTRIES
    && (forall k :: 0 <= k < dir.head ==> EntryOk(inodes, d, dir.slots[k]))
    && (forall j, k :: 0 <= j < k < dir.head ==>
          dir.slots[j] != dir.slots[k] && inodes[dir.slots[j]].name != inodes[dir.slots[k]].name)
  }

  ghost predicate EntryOk(inodes: seq<Inode>, d: nat, e: nat)
    requires Table(inodes)
  {
    && 0 < e < NUM_INODES
    && inodes[e].ftype != Unallocated
    && inodes[e].parent == d
    && LegalName(inodes[e].name)
  }

  ghost predicate WellFormed(inodes: seq<Inode>) {
    && Table(inodes)
    && inodes[0].ftype == Directory && inodes[0].name == FS_ROOT_PATH
    && forall d :: 0 <= d < NUM_INODES && inodes[d].ftype == Directory ==> DirOk(inodes, d)
  }

  lemma {:induction false} ScanFinds(inodes: seq<Inode>, d: Inode, j: nat, k: nat)
    requires j <= k < d.head <= |d.slots|
    requires forall m :: j <= m <= k ==> d.slots[m] < |inodes|
    requires forall m :: j <= m < k ==> inodes[d.slots[m]].name != inodes[d.slots[k]].name
    ensures Scan(inodes, d, inodes[d.slots[k]].name, j) == Found(d.slots[k])
    decreases k - j
  {
    if j < k {
      ScanFinds(inodes, d, j + 1, k);
    }
  }

  /** One component looked up in a directory is the entry that carries the name. */
  lemma LookupEntry(inodes: seq<Inode>, d: nat, k: nat)
    requires d < |inodes| && inodes[d].ftype == Directory
    requires k < inodes[d].head <= |inodes[d].slots|
    requires forall m :: 0 <= m <= k ==> inodes[d].slots[m] < |inodes|
    requires forall m :: 0 <= m < k ==> inodes[inodes[d].slots[m]].name != inodes[inodes[d].slots[k]].name
    requires LegalName(inodes[inodes[d].slots[k]].name)
    ensures Lookup(inodes, d, "/" + inodes[inodes[d].slots[k]].name, false) == Found(inodes[d].slots[k])
  {
    var name := inodes[inodes[d].slots[k]].name;
    ScanFinds(inodes, inodes[d], 0, k);
    assert Enter(inodes, d, name, false) == Found(inodes[d].slots[k]);
    LookupName(inodes, d, name);
  }

  /** A path of a single legal name takes a single round. */
  lemma LookupName(inodes: seq<Inode>, base: nat, name: string)
    requires base < |inodes| && name != "" && '/' !in name
    ensures Lookup(inodes, base, "/" + name, false) == Enter(inodes, base, name, false)
    ensures SkipSlashes("/" + name) == name
  {
    hide Enter, Lookup;
    var path := "/" + name;
    assert path[1..] == name;
    assert name[0] in name;
    ComponentOfName(name);
    LookupUnfold(inodes, base, path, false, name, |name|);
    assert name[..|name|] == name && name[|name|..] == "";
    var r := Enter(inodes, base, name, false);
    if r.Found? {
      LookupOfSlashes(inodes, r.idx, "", "");
    }
  }

  lemma {:induction false} ComponentOfName(name: string)
    requires '/' !in name
    ensures ComponentLen(name) == |name|
  {
    if name != "" {
      assert name[0] in name;
      ComponentOfName(name[1..]);
    }
  }

  // ------------------------------------------------------------- path printing

  /** Inode `i` hangs `depth` levels below the root, each level listed by its parent. */
  ghost predicate Attached(inodes: seq<Inode>, i: nat, depth: nat)
    requires Table(inodes)
    decreases depth
  {
    && i < NUM_INODES
    && if depth == 0 then i == 0
       else
         && i != 0
         && var p := inodes[i].parent;
         && p < NUM_INODES
         && inodes[p].ftype == Directory
         && inodes[p].head <= NDIRECT
         && i in Entries(inodes[p])
         && Attached(inodes, p, depth - 1)
  }

  /** The full path of an attached inode. */
  ghost function PathOf(inodes: seq<Inode>, i: nat, depth: nat): (r: string)
    requires Table(inodes) && Attached(inodes, i, depth)
    decreases depth
  {
    if depth == 0 then FS_ROOT_PATH
    else PathOf(inodes, inodes[i].parent, depth - 1) + "/" + inodes[i].name
  }

  /** One step up from an attached inode. */
  lemma AttachedUp(inodes: seq<Inode>, i: nat, depth: nat)
    requires Table(inodes) && WellFormed(inodes) && Attached(inodes, i, depth)
    ensures i < NUM_INODES
    ensures inodes[i].name != FS_ROOT_PATH <==> depth > 0
    ensures depth == 0 ==> i == 0 && PathOf(inodes, i, depth) == FS_ROOT_PATH
    ensures depth > 0 ==>
      && Attached(inodes, inodes[i].parent, depth - 1)
      && LegalName(inodes[i].name)
      && PathOf(inodes, i, depth) == PathOf(inodes, inodes[i].parent, depth - 1) + ("/" + inodes[i].name)
      && inodes[inodes[i].parent].ftype == Directory
      && inodes[inodes[i].parent].head <= NDIRECT
      && i in Entries(inodes[inodes[i].parent])
  {
    if depth > 0 {
      var p := inodes[i].parent;
      var k :| 0 <= k < inodes[p].head && inodes[p].slots[k] == i;
      assert EntryOk(inodes, p, inodes[p].slots[k]);
      var name := inodes[i].name;
      assert PathOf(inodes, p, depth - 1) + "/" + name == PathOf(inodes, p, depth - 1) + ("/" + name);
    }
  }

  lemma ChildResolves(inodes: seq<Inode>, p: nat, i: nat)
    requires WellFormed(inodes)
    requires p < NUM_INODES && inodes[p].ftype == Directory && inodes[p].head <= NDIRECT
    requires i in Entries(inodes[p])
    ensures i < NUM_INODES && Lookup(inodes, p, "/" + inodes[i].name, false) == Found(i)
  {
    hide Lookup;
    assert DirOk(inodes, p);
    var k :| 0 <= k < inodes[p].head && inodes[p].slots[k] == i;
    assert forall m :: 0 <= m <= k ==> EntryOk(inodes, p, inodes[p].slots[m]);
    LookupEntry(inodes, p, k);
  }

  lemma RootResolves(inodes: seq<Inode>, base: nat)
    requires base < |inodes|
    requires Follow(inodes, base, 0).Found? && inodes[Follow(inodes, base, 0).idx].ftype != File
    ensures Lookup(inodes, base, FS_ROOT_PATH, true) == Found(0)
    ensures SkipSlashes(FS_ROOT_PATH) == FS_ROOT_PATH != ""
  {
    ComponentOfName("~");
    assert "~"[..1] == "~" && "~"[1..] == "";
    LookupUnfold(inodes, base, "~", true, "~", 1);
    LookupOfSlashes(inodes, 0, "", "");
  }

  /** A path that starts at the root means the same from every base. */
  lemma LookupFromRoot(inodes: seq<Inode>, base: nat, path: string)
    requires Table(inodes) && base < NUM_INODES
    requires Follow(inodes, base, 0).Found? && inodes[Follow(inodes, base, 0).idx].ftype != File
    requires path == "" || path[0] == '/'
    ensures Lookup(inodes, base, FS_ROOT_PATH + path, true) == Lookup(inodes, 0, path, false)
  {
    hide Lookup, Follow;
    RootResolves(inodes, base);
    LookupConcat(inodes, base, FS_ROOT_PATH, path, true);
  }

  /**
   * The printed path of an attached inode leads back to it, from any base that resolves to
   * something other than a file.
   */
  lemma {:induction false} PathResolves(inodes: seq<Inode>, base: nat, i: nat, depth: nat)
    requires Table(inodes) && WellFormed(inodes) && Attached(inodes, i, depth)
    requires base < NUM_INODES
    requires Follow(inodes, base, 0).Found? && inodes[Follow(inodes, base, 0).idx].ftype != File
    ensures Lookup(inodes, base, PathOf(inodes, i, depth), true) == Found(i)
    ensures SkipSlashes(PathOf(inodes, i, depth)) != ""
    decreases depth
  {
    hide Lookup, Attached, PathOf, WellFormed, LegalName, Follow, SkipSlashes, Entries;
    AttachedUp(inodes, i, depth);
    if depth == 0 {
      RootResolves(inodes, base);
    } else {
      var p := inodes[i].parent;
      PathResolves(inodes, base, p, depth - 1);
      var front, back := PathOf(inodes, p, depth - 1), "/" + inodes[i].name;
      SkipSlashesConcat(front, back);
      LookupConcat(inodes, base, front, back, true);
      ChildResolves(inodes, p, i);
    }
  }

  /**
   * `path_helper`: measure the path by walking up, then fill the buffer from the back.
   * It fails exactly when path and terminator do not fit, and then leaves the buffer alone.
   */
  method PathHelper(inodes: seq<Inode>, inode: nat, ghost depth: nat, buf: array<char>, bufLen: nat)
    returns (r: int)
    requires Table(inodes) && WellFormed(inodes) && Attached(inodes, inode, depth)
    requires bufLen <= buf.Length
    modifies buf
    ensures r == 0 || r == -1
    ensures r == -1 <==> |PathOf(inodes, inode, depth)| + 1 > bufLen
    ensures r == -1 ==> buf[..] == old(buf[..])
    ensures r == 0 ==> buf[..] == PathOf(inodes, inode, depth)
                                  + (['\0'] + old(buf[..])[|PathOf(inodes, inode, depth)| + 1..])
  {
    hide Attached, PathOf, WellFormed;
    ghost var path := PathOf(inodes, inode, depth);
    var len := PathLength(inodes, inode, depth);
    if len > bufLen {
      r := -1;
      return;
    }
    len := len - 1;
    buf[len] := '\0';
    FillPath(inodes, inode, depth, buf, len, ['\0'] + old(buf[..])[|path| + 1..]);
    r := 0;
  }

  /** The back-to-front fill: it writes exactly the `len` characters of the path. */
  method FillPath(inodes: seq<Inode>, inode: nat, ghost depth: nat, buf: array<char>, len: nat,
                  ghost tail: string)
    requires Table(inodes) && WellFormed(inodes) && Attached(inodes, inode, depth)
    requires len == |PathOf(inodes, inode, depth)| <= buf.Length
    requires buf[len..] == tail
    modifies buf
    ensures buf[..] == PathOf(inodes, inode, depth) + tail
  {
    hide Attached, PathOf, WellFormed;
    ghost var path := PathOf(inodes, inode, depth);
    var at := len;
    var curr := inode;
    ghost var d := depth;
    AttachedUp(inodes, curr, d);
    assert path[..at] == path && path[at..] == "";
    while inodes[curr].name != FS_ROOT_PATH
      invariant 0 <= curr < NUM_INODES && Attached(inodes, curr, d)
      invariant inodes[curr].name != FS_ROOT_PATH <==> d > 0
      invariant at == |PathOf(inodes, curr, d)| <= |path|
      invariant PathOf(inodes, curr, d) == path[..at]
      invariant buf[at..] == path[at..] + tail
      decreases d
    {
      AttachedUp(inodes, curr, d);
      var name := inodes[curr].name;
      curr := inodes[curr].parent;
      d := d - 1;
      PathSplit(path, PathOf(inodes, curr, d), name, at, tail);
      at := PrependName(buf, at, name, path[at..] + tail);
      AttachedUp(inodes, curr, d);
    }
    AttachedUp(inodes, curr, d);
    CopyName(buf, 0, inodes[curr].name);
    SplitAndTail(path, at, tail);
    assert buf[..] == buf[0..];
  }

  lemma SplitAndTail(path: string, at: nat, tail: string)
    requires at <= |path|
    ensures path[..at] + (path[at..] + tail) == path + tail
  {
  }

  /** The measuring walk: path length plus terminator. */
  method PathLength(inodes: seq<Inode>, inode: nat, ghost depth: nat) returns (len: nat)
    requires Table(inodes) && WellFormed(inodes) && Attached(inodes, inode, depth)
    ensures len == |PathOf(inodes, inode, depth)| + 1
  {
    hide Attached, PathOf, WellFormed;
    len := 0;
    var curr := inode;
    ghost var d := depth;
    AttachedUp(inodes, curr, d);
    while inodes[curr].name != FS_ROOT_PATH
      invariant 0 <= curr < NUM_INODES && Attached(inodes, curr, d)
      invariant inodes[curr].name != FS_ROOT_PATH <==> d > 0
      invariant len + |PathOf(inodes, curr, d)| == |PathOf(inodes, inode, depth)|
      decreases d
    {
      AttachedUp(inodes, curr, d);
      len := len + |inodes[curr].name| + 1;
      curr := inodes[curr].parent;
      d := d - 1;
      AttachedUp(inodes, curr, d);
    }
    AttachedUp(inodes, curr, d);
    len := len + |inodes[curr].name| + 1;
  }

  lemma PathSplit(path: string, front: string, name: string, len: nat, tail: string)
    requires len <= |path| && path[..len] == front + ("/" + name)
    ensures path[..|front|] == front
    ensures path[|front|..] + tail == "/" + name + (path[len..] + tail)
  {
    assert path == path[..len] + path[len..];
  }

  /** One round of the back-to-front fill: the name, then the separator before it. */
  method PrependName(buf: array<char>, len: nat, name: string, ghost rest: string) returns (at: nat)
    requires |name| < len <= buf.Length && buf[len..] == rest
    modifies buf
    ensures at == len - |name| - 1
    ensures buf[at..] == "/" + name + rest
  {
    CopyName(buf, len - |name|, name);
    at := len - |name| - 1;
    buf[at] := '/';
  }

  /** `memcpy` of a name into a buffer. */
  method CopyName(buf: array<char>, at: nat, name: string)
    requires at + |name| <= buf.Length
    modifies buf
    ensures buf[..at] == old(buf[..at])
    ensures buf[at..] == name + old(buf[at + |name|..])
  {
    for i := 0 to |name|
      invariant forall k :: 0 <= k < i ==> buf[at + k] == name[k]
      invariant forall k :: 0 <= k < buf.Length && !(at <= k < at + i) ==> buf[k] == old(buf[k])
    {
      buf[at + i] := name[i];
    }
    ghost var rest := old(buf[at + |name|..]);
    forall k | 0 <= k < buf.Length - at ensures buf[at..][k] == (name + rest)[k] {
      assert k < |name| || rest[k - |name|] == old(buf[at + k]);
    }
  }
}
