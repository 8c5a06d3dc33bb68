/** `sys_harden` (kernel/src/syscall.c): a symlink and its target swap roles. */
module Harden {
  import opened FsDefs
  import opened Paths
  import opened Directories

  /** `s` is a symlink straight to a file or directory, as `sys_harden` demands. */
  ghost predicate CanHarden(inodes: seq<Inode>, s: nat) {
    && s < |inodes| && inodes[s].ftype == Symlink
    && inodes[s].head < |inodes|
    && (inodes[inodes[s].head].ftype == File || inodes[inodes[s].head].ftype == Directory)
  }

  /** The symlink takes over everything of its target but the name; the target becomes a symlink to it. */
  function Hardened(inodes: seq<Inode>, s: nat): (r: seq<Inode>)
    requires s < |inodes| && inodes[s].head < |inodes|
    ensures |r| == |inodes|
  {
    var t := inodes[s].head;
    var inodes1 := inodes[s := inodes[t].(name := inodes[s].name)];
    inodes1[t := inodes1[t].(ftype := Symlink, head := s)]
  }

  /** Following `i` takes exactly `h` hops, none to an unallocated inode, and ends on `e`. */
  ghost predicate Ends(inodes: seq<Inode>, i: nat, h: nat, e: nat)
    decreases h
  {
    && i < |inodes|
    && if h == 0 then inodes[i].ftype != Symlink && e == i
       else
         && inodes[i].ftype == Symlink && inodes[i].head < |inodes|
         && inodes[inodes[i].head].ftype != Unallocated
         && Ends(inodes, inodes[i].head, h - 1, e)
  }

  /** The chain of `h` hops from `i` passes through `s` just before its end. */
  ghost predicate Via(inodes: seq<Inode>, i: nat, h: nat, s: nat)
    decreases h
  {
    && i < |inodes| && h > 0
    && (i == s || Via(inodes, inodes[i].head, h - 1, s))
  }

  /** `follow_symlink` reaches the end of a chain exactly when ten hops are enough. */
  lemma {:induction false} FollowEnds(inodes: seq<Inode>, i: nat, depth: nat, h: nat, e: nat)
    requires Ends(inodes, i, h, e) && depth <= SYMLINK_RECURSION_LIMIT
    ensures Follow(inodes, i, depth) == if depth + h <= SYMLINK_RECURSION_LIMIT then Found(e) else Missing
    decreases h
  {
    if h > 0 && depth < SYMLINK_RECURSION_LIMIT {
      FollowEnds(inodes, inodes[i].head, depth + 1, h - 1, e);
    }
  }

  /** A chain to the target through the hardened symlink loses a hop, one around it gains a hop. */
  lemma {:induction false} ChainAfter(inodes: seq<Inode>, s: nat, x: nat, h: nat)
    requires CanHarden(inodes, s) && Ends(inodes, x, h, inodes[s].head)
    ensures Via(inodes, x, h, s) ==> Ends(Hardened(inodes, s), x, h - 1, s)
    ensures !Via(inodes, x, h, s) ==> Ends(Hardened(inodes, s), x, h + 1, s)
    decreases h
  {
    var r, t := Hardened(inodes, s), inodes[s].head;
    assert Ends(r, s, 0, s);
    if h == 0 {
      assert Ends(r, t, 1, s);
    } else if x == s {
      EndsOnce(inodes, t, h - 1);
    } else {
      ChainAfter(inodes, s, inodes[x].head, h - 1);
    }
  }

  lemma EndsOnce(inodes: seq<Inode>, t: nat, h: nat)
    requires t < |inodes| && inodes[t].ftype != Symlink && Ends(inodes, t, h, t)
    ensures h == 0
  {
  }

  /** A chain that does not lead to the target is followed as before. */
  lemma {:induction false} FollowElsewhere(inodes: seq<Inode>, s: nat, x: nat, depth: nat)
    requires CanHarden(inodes, s) && depth <= SYMLINK_RECURSION_LIMIT
    requires forall h: nat :: !Ends(inodes, x, h, inodes[s].head)
    ensures Follow(Hardened(inodes, s), x, depth) == Follow(inodes, x, depth)
    decreases SYMLINK_RECURSION_LIMIT - depth
  {
    var t := inodes[s].head;
    if x < |inodes| {
      assert !Ends(inodes, x, 0, t);
      assert Ends(inodes, t, 0, t);
      assert !Ends(inodes, x, 1, t);
      if inodes[x].ftype == Symlink && inodes[x].head < |inodes| && inodes[inodes[x].head].ftype != Unallocated
         && depth < SYMLINK_RECURSION_LIMIT {
        var y := inodes[x].head;
        forall h: nat ensures !Ends(inodes, y, h, t) {
          assert !Ends(inodes, x, h + 1, t);
        }
        FollowElsewhere(inodes, s, y, depth + 1);
      }
    }
  }

  /** Both tables lead `x` to the same kind of inode with the same file or directory data, or neither leads anywhere. */
  ghost predicate SameMeaning(inodes: seq<Inode>, inodes': seq<Inode>, x: nat)
    requires |inodes| == |inodes'|
  {
    match (Follow(inodes, x, 0), Follow(inodes', x, 0))
    case (Found(a), Found(b)) =>
      inodes'[b].ftype == inodes[a].ftype && inodes'[b].head == inodes[a].head && inodes'[b].slots == inodes[a].slots
    case (Found(_), _) => false
    case (_, Found(_)) => false
    case (a, b) => a == b
  }

  /** The chain from `x` to the target of `s` is one that hardening moves across the hop limit. */
  ghost predicate AtHopLimit(inodes: seq<Inode>, s: nat, x: nat)
    requires CanHarden(inodes, s)
  {
    exists h: nat :: Ends(inodes, x, h, inodes[s].head) && h == if Via(inodes, x, h, s) then 11 else 10
  }

  /**
   * Hardening preserves the meaning of every inode, except exactly at the hop limit: a chain that
   * ends on the target and is 10 hops long and bypasses the symlink, or 11 and goes through it.
   */
  lemma HardenPreserves(inodes: seq<Inode>, s: nat, x: nat)
    requires CanHarden(inodes, s)
    ensures SameMeaning(inodes, Hardened(inodes, s), x) <==> !AtHopLimit(inodes, s, x)
  {
    var r, t := Hardened(inodes, s), inodes[s].head;
    if forall h: nat :: !Ends(inodes, x, h, t) {
      FollowElsewhere(inodes, s, x, 0);
      NotTarget(inodes, s, x, 0);
    }
    forall h: nat | Ends(inodes, x, h, t)
      ensures SameMeaning(inodes, r, x) <==> h != if Via(inodes, x, h, s) then 11 else 10
    {
      FollowEnds(inodes, x, 0, h, t);
      ChainAfter(inodes, s, x, h);
      FollowEnds(r, x, 0, if Via(inodes, x, h, s) then h - 1 else h + 1, s);
    }
  }

  /** Followed to the end, a chain that never ends on the target ends on an untouched inode. */
  lemma {:induction false} NotTarget(inodes: seq<Inode>, s: nat, x: nat, depth: nat)
    requires CanHarden(inodes, s) && depth <= SYMLINK_RECURSION_LIMIT
    requires forall h: nat :: !Ends(inodes, x, h, inodes[s].head)
    ensures var f := Follow(inodes, x, depth);
            f.Found? ==> f.idx != s && f.idx != inodes[s].head
    decreases SYMLINK_RECURSION_LIMIT - depth
  {
    var t := inodes[s].head;
    if x < |inodes| {
      assert !Ends(inodes, x, 0, t);
      if inodes[x].ftype == Symlink && inodes[x].head < |inodes| && inodes[inodes[x].head].ftype != Unallocated
         && depth < SYMLINK_RECURSION_LIMIT {
        var y := inodes[x].head;
        forall h: nat ensures !Ends(inodes, y, h, t) {
          assert !Ends(inodes, x, h + 1, t);
        }
        NotTarget(inodes, s, y, depth + 1);
      }
    }
  }

  /** An unlisted directory that holds only the link, and whose stale parent link names it. */
  predicate HoldsOnlyLink(inodes: seq<Inode>, s: nat, t: nat)
    requires s < |inodes| && t < |inodes|
  {
    inodes[s].parent == t && inodes[t].parent == s && inodes[t].ftype == Directory && inodes[t].head == 1
  }

  /**
   * Hardening copies the target's parent link and entries along, so it keeps the tree well
   * formed exactly when symlink and target lie in the same directory, the target is not the
   * root, and it has no entries of its own; or when the target is a deleted directory that the
   * link alone keeps company.
   */
  lemma HardenKeepsTree(inodes: seq<Inode>, s: nat)
    requires WellFormed(inodes) && CanHarden(inodes, s) && Listed(inodes, s)
    ensures var t := inodes[s].head;
            WellFormed(Hardened(inodes, s)) <==>
            && t != 0
            && (|| HoldsOnlyLink(inodes, s, t)
                || (inodes[t].parent == inodes[s].parent && (inodes[t].ftype == Directory ==> inodes[t].head == 0)))
  {
    hide LegalName;
    var r, t, p := Hardened(inodes, s), inodes[s].head, inodes[s].parent;
    var k :| 0 <= k < inodes[p].head && inodes[p].slots[k] == s;
    assert DirOk(inodes, p);
    if t == 0 {
      assert r[0].ftype == Symlink;
    } else if t == p {
      HardenParent(inodes, s, k);
    } else if inodes[t].parent != p {
      assert r[p] == inodes[p] && !EntryOk(r, p, r[p].slots[k]);
    } else if inodes[t].ftype == Directory && inodes[t].head > 0 {
      assert DirOk(inodes, t) && EntryOk(inodes, t, inodes[t].slots[0]);
      assert !EntryOk(r, s, r[s].slots[0]);
    } else {
      forall d | 0 <= d < NUM_INODES && r[d].ftype == Directory
        ensures DirOk(r, d)
      {
        HardenKeepsDir(inodes, s, d);
      }
    }
  }

  /** The link lies in its own target. */
  lemma HardenParent(inodes: seq<Inode>, s: nat, k: nat)
    requires WellFormed(inodes) && CanHarden(inodes, s) && inodes[s].head == inodes[s].parent != 0
    requires var t := inodes[s].head; inodes[t].ftype == Directory && k < inodes[t].head && inodes[t].slots[k] == s
    ensures WellFormed(Hardened(inodes, s)) <==> HoldsOnlyLink(inodes, s, inodes[s].head)
  {
    hide LegalName;
    var r, t := Hardened(inodes, s), inodes[s].head;
    assert DirOk(inodes, t) && EntryOk(inodes, t, s);
    if HoldsOnlyLink(inodes, s, t) {
      forall d | 0 <= d < NUM_INODES && r[d].ftype == Directory
        ensures DirOk(r, d)
      {
        if d != s {
          HardenElsewhere(inodes, s, d);
        }
      }
    } else if inodes[t].parent != s {
      assert r[s].slots[k] == s && !EntryOk(r, s, s);
    } else {
      var m := if k == 0 then 1 else 0;
      assert EntryOk(inodes, t, inodes[t].slots[m]) && inodes[t].slots[m] != s;
      assert r[s].slots[m] == inodes[t].slots[m] && !EntryOk(r, s, r[s].slots[m]);
    }
  }

  /** A directory that lists neither link nor target stays as it is. */
  lemma HardenElsewhere(inodes: seq<Inode>, s: nat, d: nat)
    requires WellFormed(inodes) && CanHarden(inodes, s) && HoldsOnlyLink(inodes, s, inodes[s].head)
    requires d < NUM_INODES && d != s && Hardened(inodes, s)[d].ftype == Directory
    ensures Table(Hardened(inodes, s)) && DirOk(Hardened(inodes, s), d)
  {
    hide LegalName;
    var r := Hardened(inodes, s);
    assert DirOk(inodes, d);
    forall m | 0 <= m < r[d].head
      ensures EntryOk(r, d, r[d].slots[m]) && r[r[d].slots[m]].name == inodes[inodes[d].slots[m]].name
    {
      assert EntryOk(inodes, d, inodes[d].slots[m]);
    }
  }

  lemma HardenKeepsDir(inodes: seq<Inode>, s: nat, d: nat)
    requires WellFormed(inodes) && CanHarden(inodes, s) && Listed(inodes, s)
    requires var t := inodes[s].head;
             t != 0 && inodes[t].parent == inodes[s].parent && (inodes[t].ftype == Directory ==> inodes[t].head == 0)
    requires d < NUM_INODES && Hardened(inodes, s)[d].ftype == Directory
    ensures Table(Hardened(inodes, s)) && DirOk(Hardened(inodes, s), d)
  {
    var r := Hardened(inodes, s);
    if d != s {
      assert DirOk(inodes, d);
      forall m | 0 <= m < r[d].head
        ensures EntryOk(r, d, r[d].slots[m]) && r[r[d].slots[m]].name == inodes[inodes[d].slots[m]].name
      {
        assert EntryOk(inodes, d, inodes[d].slots[m]);
      }
    }
  }

  // ------------------------------------------------------------- where it fails

  /** A file 1, a link 2 to it, and ten more links 3 to 12, each to the one before and the first to the file. */
  function LongChain(): (r: seq<Inode>)
    ensures |r| == 13
  {
    seq(13, i => if i == 1 then ZERO_INODE.(ftype := File)
                 else ZERO_INODE.(ftype := Symlink, head := if i <= 3 then 1 else i - 1))
  }

  lemma {:induction false} LongChainEnds(i: nat)
    requires 3 <= i <= 12
    ensures Ends(LongChain(), i, i - 2, 1) && !Via(LongChain(), i, i - 2, 2)
  {
    if i > 3 {
      LongChainEnds(i - 1);
    }
  }

  /** The last of ten links to a file leads nowhere once another link to the file is hardened. */
  lemma LongChainBreaks()
    ensures var t := LongChain();
            && CanHarden(t, 2) && Follow(t, 12, 0) == Found(1) && Follow(Hardened(t, 2), 12, 0) == Missing
            && !SameMeaning(t, Hardened(t, 2), 12)
  {
    var t := LongChain();
    LongChainEnds(12);
    FollowEnds(t, 12, 0, 10, 1);
    ChainAfter(t, 2, 12, 10);
    FollowEnds(Hardened(t, 2), 12, 0, 11, 2);
  }

  function Listing(a: nat, b: nat): (r: seq<nat>)
    ensures |r| == NDIRECT
  {
    seq(NDIRECT, k => if k == 0 then a else if k == 1 then b else 0)
  }

  function ApartInode(i: int): (r: Inode)
    ensures |r.slots| == NDIRECT
  {
    match i
    case 0 => Inode(FS_ROOT_PATH, Directory, 0, 2, Listing(1, 2), true, 0)
    case 1 => Inode("a", Directory, 0, 1, Listing(3, 0), true, 0)
    case 2 => Inode("l", Symlink, 0, 3, Listing(0, 0), true, 0)
    case 3 => Inode("f", File, 1, 0, Listing(0, 0), true, 0)
    case _ => Inode("", Unallocated, 0, 0, Listing(0, 0), false, 0)
  }

  /** The root holds a directory `a` and a link `l`; `a` holds the file `f` that the link names. */
  function ApartTree(): (r: seq<Inode>)
    ensures Table(r) && forall i :: 0 <= i < NUM_INODES ==> r[i] == ApartInode(i)
  {
    seq(NUM_INODES, i => ApartInode(i))
  }

  lemma ApartTreeOk()
    ensures WellFormed(ApartTree()) && CanHarden(ApartTree(), 2) && Listed(ApartTree(), 2)
  {
    hide ApartTree;
    var t := ApartTree();
    assert Listing(1, 2)[1] == 2;
    assert LegalName("a") && LegalName("l") && LegalName("f");
    assert EntryOk(t, 0, 1) && EntryOk(t, 0, 2) && EntryOk(t, 1, 3);
    hide EntryOk, LegalName;
    assert t[1].name[0] != t[2].name[0];
    assert DirOk(t, 0) && DirOk(t, 1);
    assert Entries(t[0])[1] == 2;
  }

  /** Hardening a link to a file in another directory leaves a tree that is not well formed. */
  lemma ApartTreeBreaks()
    ensures WellFormed(ApartTree()) && CanHarden(ApartTree(), 2) && !WellFormed(Hardened(ApartTree(), 2))
  {
    hide WellFormed;
    ApartTreeOk();
    HardenKeepsTree(ApartTree(), 2);
  }
}
