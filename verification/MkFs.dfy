/**
 * The image builder (mkfs/src/main.c): a host directory tree is laid out as inodes and data
 * blocks, and what the kernel's lookup and read code finds in that image is the tree again.
 */
module MkFs {
  import opened FsDefs
  import opened Seqs
  import opened Paths
  import opened FileData
  import opened Directories

  /** What `readdir` and `fread` deliver of the host tree. */
  datatype Node = HostFile(name: string, bytes: seq<Byte>) | HostDir(name: string, entries: seq<Node>)

  /** The names and directory sizes the image can hold. */
  ghost predicate Legal(n: Node) {
    n.HostDir? ==>
      && |n.entries| <= DIR_MAX_ENTRIES
      && (forall k :: 0 <= k < |n.entries| ==> LegalName(n.entries[k].name) && Legal(n.entries[k]))
      && (forall j, k :: 0 <= j < k < |n.entries| ==> n.entries[j].name != n.entries[k].name)
  }

  /** The entries the `readdir` loop of the directory at `path` passes over, among them one called like that path. */
  predicate Skipped(name: string, path: string) {
    name == "." || name == ".." || name == path
  }

  ghost function Kept(es: seq<Node>, path: string): (r: seq<Node>)
  {
    if es == [] then []
    else
      var front := Kept(es[..|es| - 1], path);
      if Skipped(es[|es| - 1].name, path) then front else front + [es[|es| - 1]]
  }

  /** The directory that the loop takes in. */
  ghost function Pruned(dir: Node, path: string): (r: Node)
    requires dir.HostDir?
    ensures r.HostDir? && r.entries == Kept(dir.entries, path)
  {
    dir.(entries := Kept(dir.entries, path))
  }

  lemma {:induction false} KeptPrefix(es: seq<Node>, k: nat, path: string)
    requires k < |es|
    ensures Kept(es[..k + 1], path) ==
            if Skipped(es[k].name, path) then Kept(es[..k], path) else Kept(es[..k], path) + [es[k]]
    ensures Kept(es[..k + 1], path) <= Kept(es, path)
    decreases |es| - k
  {
    assert es[..k + 1][..k] == es[..k];
    if k + 1 < |es| {
      KeptPrefix(es, k + 1, path);
    } else {
      assert es[..k + 1] == es;
    }
  }

  lemma {:induction false} KeptNotSkipped(es: seq<Node>, path: string, k: nat)
    requires k < |Kept(es, path)|
    ensures !Skipped(Kept(es, path)[k].name, path)
  {
    var front := Kept(es[..|es| - 1], path);
    if k < |front| {
      KeptNotSkipped(es[..|es| - 1], path, k);
    }
  }

  /** The place of an entry among those the loop takes in. */
  lemma KeptAt(es: seq<Node>, k: nat, path: string)
    requires k < |es| && !Skipped(es[k].name, path)
    ensures var all, m := Kept(es, path), |Kept(es[..k], path)|;
            m < |all| && all[m] == es[k] && all[..m] == Kept(es[..k], path) && all[..m + 1] == Kept(es[..k + 1], path)
  {
    KeptPrefix(es, k, path);
    var all, m := Kept(es, path), |Kept(es[..k], path)|;
    assert all[..m + 1] == Kept(es[..k + 1], path);
    assert all[..m] == all[..m + 1][..m];
  }

  lemma {:induction false} KeptAll(es: seq<Node>, path: string)
    requires forall k :: 0 <= k < |es| ==> !Skipped(es[k].name, path)
    ensures Kept(es, path) == es
  {
    hide Skipped;
    if es != [] {
      KeptAll(es[..|es| - 1], path);
      FrontAndLast(es);
    }
  }

  /** The part of a file that fits the direct blocks. */
  function Stored(bytes: seq<Byte>): (r: seq<Byte>)
    ensures r <= bytes && |r| <= FILE_MAX_SIZE
    ensures |bytes| <= FILE_MAX_SIZE ==> r == bytes
  {
    bytes[..Min(|bytes|, FILE_MAX_SIZE)]
  }

  ghost function NodeCount(n: Node): (r: nat)
    ensures r >= 1
    decreases n, 0
  {
    if n.HostFile? then 1 else 1 + NodesOf(n.entries)
  }

  ghost function NodesOf(es: seq<Node>): (r: nat)
    decreases es, 0
  {
    if es == [] then 0 else NodesOf(es[..|es| - 1]) + NodeCount(es[|es| - 1])
  }

  ghost function BlockCount(n: Node): (r: nat)
    decreases n, 0
  {
    if n.HostFile? then Blocks(|Stored(n.bytes)|) else BlocksOf(n.entries)
  }

  ghost function BlocksOf(es: seq<Node>): (r: nat)
    decreases es, 0
  {
    if es == [] then 0 else BlocksOf(es[..|es| - 1]) + BlockCount(es[|es| - 1])
  }

  lemma {:induction false} CountsOfPrefix(es: seq<Node>, k: nat)
    requires k < |es|
    ensures NodesOf(es[..k + 1]) == NodesOf(es[..k]) + NodeCount(es[k])
    ensures BlocksOf(es[..k + 1]) == BlocksOf(es[..k]) + BlockCount(es[k])
    ensures NodesOf(es[..k + 1]) <= NodesOf(es)
    ensures BlocksOf(es[..k + 1]) <= BlocksOf(es)
    decreases |es| - k
  {
    assert es[..k + 1][..k] == es[..k];
    if k + 1 < |es| {
      CountsOfPrefix(es, k + 1);
    } else {
      assert es[..k + 1] == es;
    }
  }

  /**
   * Inode `i` holds `node`: its subtree uses inodes `i` to `hi` and data blocks `blo` to `bhi`,
   * entry by entry, name by name and byte by byte.
   */
  ghost predicate Laid(inodes: seq<Inode>, disk: seq<Byte>, i: nat, node: Node, hi: nat, blo: nat, bhi: nat)
    requires Table(inodes) && |disk| == DISK_SIZE
    decreases node
  {
    && i < hi <= NUM_INODES
    && match node
       case HostFile(_, bytes) =>
         && inodes[i].ftype == File
         && FileOk(inodes[i])
         && (forall k :: 0 <= k < Blocks(inodes[i].head) ==> blo <= inodes[i].slots[k] < bhi)
         && Contents(disk, inodes[i]) == Stored(bytes)
       case HostDir(_, entries) =>
         && inodes[i].ftype == Directory
         && inodes[i].head == |entries| <= NDIRECT
         && forall k :: 0 <= k < |entries| ==>
              && i < inodes[i].slots[k] < hi
              && inodes[inodes[i].slots[k]].name == entries[k].name
              && inodes[inodes[i].slots[k]].parent == i
              && Laid(inodes, disk, inodes[i].slots[k], entries[k], hi, blo, bhi)
  }

  /** Blocks `blo` to `bhi` read the same on both disks. */
  ghost predicate SameBlocks(disk: seq<Byte>, disk': seq<Byte>, blo: nat, bhi: nat) {
    && |disk| == |disk'| == DISK_SIZE
    && forall a :: 0 <= a < DISK_SIZE && blo <= a / BLOCK_SIZE < bhi ==> disk'[a] == disk[a]
  }

  /** A laid-out subtree does not depend on anything outside its inodes and blocks, nor on its own parent link. */
  lemma {:induction false} LaidFrame(inodes: seq<Inode>, inodes': seq<Inode>, disk: seq<Byte>, disk': seq<Byte>,
                                     i: nat, node: Node, hi: nat, blo: nat, bhi: nat, hi': nat, bhi': nat)
    requires Table(inodes) && Table(inodes') && |disk| == DISK_SIZE && SameBlocks(disk, disk', blo, bhi)
    requires Laid(inodes, disk, i, node, hi, blo, bhi)
    requires hi <= hi' <= NUM_INODES && bhi <= bhi'
    requires inodes'[i] == inodes[i].(parent := inodes'[i].parent)
    requires forall j :: i < j < hi ==> inodes'[j] == inodes[j]
    ensures Laid(inodes', disk', i, node, hi', blo, bhi')
    decreases node
  {
    match node
    case HostFile(_, bytes) =>
      ContentsFrame(disk, disk', inodes[i], inodes'[i], blo, bhi);
    case HostDir(_, entries) =>
      forall k | 0 <= k < |entries|
        ensures Laid(inodes', disk', inodes'[i].slots[k], entries[k], hi', blo, bhi')
      {
        LaidFrame(inodes, inodes', disk, disk', inodes[i].slots[k], entries[k], hi, blo, bhi, hi', bhi');
      }
  }

  lemma ContentsFrame(disk: seq<Byte>, disk': seq<Byte>, ino: Inode, ino': Inode, blo: nat, bhi: nat)
    requires |disk| == DISK_SIZE && SameBlocks(disk, disk', blo, bhi)
    requires InImage(ino) && ino' == ino.(parent := ino'.parent)
    requires forall k :: 0 <= k < Blocks(ino.head) ==> blo <= ino.slots[k] < bhi
    ensures Contents(disk', ino') == Contents(disk, ino)
  {
    forall k | 0 <= k < ino.head
      ensures Contents(disk', ino')[k] == Contents(disk, ino)[k]
    {
      assert Addr(ino', k) == Addr(ino, k);
      assert Addr(ino, k) / BLOCK_SIZE == ino.slots[k / BLOCK_SIZE];
    }
  }

  // ---------------------------------------------------------------- reading back

  /** `names` leads from `n` to `target`. */
  ghost predicate InTree(n: Node, names: seq<string>, target: Node)
    decreases |names|
  {
    if names == [] then n == target
    else n.HostDir? && exists k :: 0 <= k < |n.entries| && n.entries[k].name == names[0]
                                   && InTree(n.entries[k], names[1..], target)
  }

  function PathString(names: seq<string>): (r: string)
    ensures r == "" || r[0] == '/'
  {
    if names == [] then "" else "/" + names[0] + PathString(names[1..])
  }

  /** The kernel walks a path of names to the inode that holds the node. */
  lemma {:induction false} LookupLaid(inodes: seq<Inode>, disk: seq<Byte>, i: nat, node: Node,
                                      hi: nat, blo: nat, bhi: nat, names: seq<string>, target: Node)
    requires Table(inodes) && |disk| == DISK_SIZE
    requires Legal(node) && Laid(inodes, disk, i, node, hi, blo, bhi)
    requires InTree(node, names, target)
    ensures i < NUM_INODES
    ensures var r := Lookup(inodes, i, PathString(names), false);
            r.Found? && r.idx < NUM_INODES && Laid(inodes, disk, r.idx, target, hi, blo, bhi)
    decreases |names|
  {
    hide Lookup, Laid, Legal, LegalName;
    LaidIndex(inodes, disk, i, node, hi, blo, bhi);
    if names == [] {
      LookupOfSlashes(inodes, i, "", "");
    } else {
      var k :| 0 <= k < |node.entries| && node.entries[k].name == names[0]
               && InTree(node.entries[k], names[1..], target);
      var c := EnterLaid(inodes, disk, i, node, hi, blo, bhi, k);
      LookupLaid(inodes, disk, c, node.entries[k], hi, blo, bhi, names[1..], target);
      LookupConcat(inodes, i, "/" + names[0], PathString(names[1..]), false);
    }
  }

  lemma LaidIndex(inodes: seq<Inode>, disk: seq<Byte>, i: nat, node: Node, hi: nat, blo: nat, bhi: nat)
    requires Table(inodes) && |disk| == DISK_SIZE && Laid(inodes, disk, i, node, hi, blo, bhi)
    ensures i < hi <= NUM_INODES
  {
  }

  /** One component of the walk. */
  lemma EnterLaid(inodes: seq<Inode>, disk: seq<Byte>, i: nat, node: Node, hi: nat, blo: nat, bhi: nat, k: nat)
    returns (c: nat)
    requires Table(inodes) && |disk| == DISK_SIZE
    requires Legal(node) && Laid(inodes, disk, i, node, hi, blo, bhi)
    requires node.HostDir? && k < |node.entries|
    ensures i < NUM_INODES
    ensures Lookup(inodes, i, "/" + node.entries[k].name, false) == Found(c)
    ensures Legal(node.entries[k]) && Laid(inodes, disk, c, node.entries[k], hi, blo, bhi)
    ensures SkipSlashes("/" + node.entries[k].name) != ""
  {
    hide Lookup;
    c := inodes[i].slots[k];
    forall m | 0 <= m <= k
      ensures inodes[i].slots[m] < |inodes| && inodes[inodes[i].slots[m]].name == node.entries[m].name
    {
    }
    LookupEntry(inodes, i, k);
    var comp := "/" + node.entries[k].name;
    assert comp[1..] == node.entries[k].name;
  }

  /**
   * The round trip: in an image that holds the tree, every file's path resolves, from any
   * base that is not a file, to a file inode with exactly the file's bytes (its first 21
   * blocks if it is longer).
   */
  lemma {:induction false} ReadBack(inodes: seq<Inode>, disk: seq<Byte>, tree: Node, hi: nat, blo: nat, bhi: nat,
                 names: seq<string>, name: string, bytes: seq<Byte>, base: nat)
    requires Table(inodes) && |disk| == DISK_SIZE
    requires Legal(tree) && Laid(inodes, disk, 0, tree, hi, blo, bhi)
    requires InTree(tree, names, HostFile(name, bytes))
    requires base < NUM_INODES
    requires Follow(inodes, base, 0).Found? && inodes[Follow(inodes, base, 0).idx].ftype != File
    ensures HoldsFile(inodes, disk, Lookup(inodes, base, FS_ROOT_PATH + PathString(names), true), Stored(bytes))
    ensures HoldsFile(inodes, disk, Lookup(inodes, base, FS_ROOT_PATH + PathString(names), true), bytes)
            <==> |bytes| <= FILE_MAX_SIZE
  {
    hide *;
    LookupLaid(inodes, disk, 0, tree, hi, blo, bhi, names, HostFile(name, bytes));
    LookupFromRoot(inodes, base, PathString(names));
    LaidFile(inodes, disk, Lookup(inodes, 0, PathString(names), false), HostFile(name, bytes), hi, blo, bhi);
  }

  /** Below the root, a path leads to the same node in the pruned tree, unless it starts with the dropped name. */
  lemma PrunedInTree(tree: Node, fsDir: string, names: seq<string>, target: Node)
    requires tree.HostDir? && names != [] && InTree(tree, names, target)
    ensures !Skipped(names[0], fsDir) ==> InTree(Pruned(tree, fsDir), names, target)
  {
    if !Skipped(names[0], fsDir) {
      var k :| 0 <= k < |tree.entries| && tree.entries[k].name == names[0]
               && InTree(tree.entries[k], names[1..], target);
      KeptAt(tree.entries, k, fsDir);
    }
  }

  /** The dropped name, and with it everything below, resolves to nothing. */
  lemma DroppedMisses(inodes: seq<Inode>, disk: seq<Byte>, tree: Node, fsDir: string, hi: nat, blo: nat, bhi: nat,
                      names: seq<string>)
    requires Table(inodes) && |disk| == DISK_SIZE && tree.HostDir?
    requires Laid(inodes, disk, 0, Pruned(tree, fsDir), hi, blo, bhi)
    requires names != [] && names[0] == fsDir && LegalName(fsDir)
    ensures Lookup(inodes, 0, PathString(names), false) == Missing
  {
    hide Lookup, Enter, Laid, LegalName;
    RootLacks(inodes, disk, tree, fsDir, hi, blo, bhi);
    ScanAll(inodes, inodes[0], fsDir, 0);
    EnterPlain(inodes, 0, fsDir);
    NameOfPath(fsDir);
    LookupName(inodes, 0, fsDir);
    LookupConcat(inodes, 0, "/" + fsDir, PathString(names[1..]), false);
  }

  lemma LegalEntry(dir: Node, k: nat)
    requires dir.HostDir? && Legal(dir) && k < |dir.entries|
    ensures Legal(dir.entries[k]) && LegalName(dir.entries[k].name) && |dir.entries| <= NDIRECT
  {
  }

  lemma LegalKept(name: string, path: string)
    requires LegalName(name)
    ensures Skipped(name, path) <==> name == path
  {
  }

  lemma NameOfPath(name: string)
    requires LegalName(name)
    ensures SkipSlashes("/" + name) != "" && name != "" && '/' !in name
  {
    assert ("/" + name)[1..] == name;
  }

  lemma RootLacks(inodes: seq<Inode>, disk: seq<Byte>, tree: Node, fsDir: string, hi: nat, blo: nat, bhi: nat)
    requires Table(inodes) && |disk| == DISK_SIZE && tree.HostDir?
    requires Laid(inodes, disk, 0, Pruned(tree, fsDir), hi, blo, bhi)
    ensures inodes[0].ftype == Directory && NotNamed(inodes, inodes[0], fsDir, 0)
  {
    forall k | 0 <= k < inodes[0].head
      ensures inodes[0].slots[k] < NUM_INODES && inodes[inodes[0].slots[k]].name != fsDir
    {
      KeptNotSkipped(tree.entries, fsDir, k);
    }
  }

  /**
   * The round trip for the tree mkfs was given: a file's path reads back as above exactly when
   * its first name is not the name mkfs was given for the directory; otherwise nothing is there.
   */
  lemma ReadBackUnlessDropped(inodes: seq<Inode>, disk: seq<Byte>, tree: Node, fsDir: string,
                              hi: nat, blo: nat, bhi: nat,
                              names: seq<string>, name: string, bytes: seq<Byte>, base: nat)
    requires Table(inodes) && |disk| == DISK_SIZE && tree.HostDir?
    requires Legal(Pruned(tree, fsDir)) && Laid(inodes, disk, 0, Pruned(tree, fsDir), hi, blo, bhi)
    requires InTree(tree, names, HostFile(name, bytes)) && LegalName(names[0])
    requires base < NUM_INODES
    requires Follow(inodes, base, 0).Found? && inodes[Follow(inodes, base, 0).idx].ftype != File
    ensures var r := Lookup(inodes, base, FS_ROOT_PATH + PathString(names), true);
            && (HoldsFile(inodes, disk, r, Stored(bytes)) <==> names[0] != fsDir)
            && (HoldsFile(inodes, disk, r, bytes) <==> names[0] != fsDir && |bytes| <= FILE_MAX_SIZE)
            && (names[0] == fsDir ==> r == Missing)
  {
    hide Lookup, Laid, Legal, LegalName, Follow, PathString, Pruned;
    if names[0] == fsDir {
      DroppedMisses(inodes, disk, tree, fsDir, hi, blo, bhi, names);
      LookupFromRoot(inodes, base, PathString(names));
    } else {
      LegalKept(names[0], fsDir);
      PrunedInTree(tree, fsDir, names, HostFile(name, bytes));
      ReadBack(inodes, disk, Pruned(tree, fsDir), hi, blo, bhi, names, name, bytes, base);
    }
  }

  /** What a lookup found is a file with these bytes. */
  ghost predicate HoldsFile(inodes: seq<Inode>, disk: seq<Byte>, r: Resolution, bytes: seq<Byte>)
    requires |disk| == DISK_SIZE
  {
    && r.Found? && r.idx < |inodes|
    && inodes[r.idx].ftype == File && FileOk(inodes[r.idx])
    && Contents(disk, inodes[r.idx]) == bytes
  }

  lemma LaidFile(inodes: seq<Inode>, disk: seq<Byte>, r: Resolution, node: Node, hi: nat, blo: nat, bhi: nat)
    requires Table(inodes) && |disk| == DISK_SIZE && node.HostFile?
    requires r.Found? && Laid(inodes, disk, r.idx, node, hi, blo, bhi)
    ensures HoldsFile(inodes, disk, r, Stored(node.bytes))
    ensures HoldsFile(inodes, disk, r, node.bytes) <==> |node.bytes| <= FILE_MAX_SIZE
  {
  }

  // -------------------------------------------------------------------- building

  /** `get_filename`: what follows the last separator. */
  function FileName(path: string): (r: string) {
    if path == "" || path[|path| - 1] == '/' then ""
    else FileName(path[..|path| - 1]) + [path[|path| - 1]]
  }

  lemma {:induction false} FileNameOfJoin(dir: string, name: string)
    requires '/' !in name
    ensures FileName(dir + "/" + name) == name
  {
    var path := dir + "/" + name;
    if name == "" {
      assert path[|path| - 1] == '/';
    } else {
      var front := name[..|name| - 1];
      assert path[..|path| - 1] == dir + "/" + front;
      assert path[|path| - 1] == name[|name| - 1] && name[|name| - 1] in name;
      FileNameOfJoin(dir, front);
      assert front + [name[|name| - 1]] == name;
    }
  }

  /** `strncpy` into a zeroed name field. */
  function StoredName(name: string): (r: string)
    ensures |r| < FILENAME_MAX_LEN && r <= name
    ensures |name| < FILENAME_MAX_LEN ==> r == name
  {
    name[..Min(|name|, FILENAME_MAX_LEN - 1)]
  }

  /** Files own distinct data blocks below `top`, and no block belongs to two of them. */
  ghost predicate FilesApart(inodes: seq<Inode>, top: nat)
    requires Table(inodes)
  {
    && (forall i :: 0 <= i < NUM_INODES && inodes[i].ftype == File ==>
          && FileOk(inodes[i]) && StaleSlot(inodes[i])
          && forall k :: 0 <= k < Blocks(inodes[i].head) ==> inodes[i].slots[k] < top)
    && (forall i, j :: 0 <= i < j < NUM_INODES && inodes[i].ftype == File && inodes[j].ftype == File ==>
          Disjoint(inodes[i], inodes[j]))
  }

  /** Consecutive blocks hold the file as one run of image bytes. */
  lemma ConsecutiveContents(disk: seq<Byte>, ino: Inode, b0: nat)
    requires |disk| == DISK_SIZE && InImage(ino)
    requires forall k :: 0 <= k < Blocks(ino.head) ==> ino.slots[k] == b0 + k
    requires b0 + Blocks(ino.head) <= NUM_BLOCKS
    ensures Contents(disk, ino) == disk[b0 * BLOCK_SIZE..b0 * BLOCK_SIZE + ino.head]
  {
    forall k | 0 <= k < ino.head
      ensures Contents(disk, ino)[k] == disk[b0 * BLOCK_SIZE + k]
    {
      assert ino.slots[k / BLOCK_SIZE] == b0 + k / BLOCK_SIZE;
    }
  }

  /** The value of a byte's bits from `k` on: bit `i` is the bitmap's bit `8 * j + i`, clear past its end. */
  function ByteOf(bits: seq<bool>, j: nat, k: nat): (r: nat)
    requires k <= 8
    decreases 8 - k
  {
    if k == 8 then 0
    else (if 8 * j + k < |bits| && bits[8 * j + k] then 1 else 0) + 2 * ByteOf(bits, j, k + 1)
  }

  lemma ByteRange(bits: seq<bool>, j: nat)
    ensures ByteOf(bits, j, 0) < 256
  {
    assert ByteOf(bits, j, 6) < 4;
    assert ByteOf(bits, j, 4) < 16;
    assert ByteOf(bits, j, 2) < 64;
  }

  /** The bitmap block of the image. */
  function BitmapBlock(bits: seq<bool>): (r: seq<Byte>)
    ensures |r| == BLOCK_SIZE
  {
    seq(BLOCK_SIZE, j requires 0 <= j < BLOCK_SIZE => ByteRange(bits, j); ByteOf(bits, j, 0) as Byte)
  }

  /** The bit `i` places up. */
  predicate Bit(x: nat, i: nat) {
    if i == 0 then x % 2 == 1 else Bit(x / 2, i - 1)
  }

  lemma {:induction false} BitOfByte(bits: seq<bool>, j: nat, k: nat, m: nat)
    requires k <= m < 8 && 8 * j + 8 <= |bits|
    ensures Bit(ByteOf(bits, j, k), m - k) <==> bits[8 * j + m]
    decreases m - k
  {
    hide Bit;
    var low, high := if bits[8 * j + k] then 1 else 0, ByteOf(bits, j, k + 1);
    assert ByteOf(bits, j, k) == low + 2 * high;
    hide ByteOf;
    BitOfPair(low, high, m - k);
    if k < m {
      BitOfByte(bits, j, k + 1, m);
    }
  }

  lemma BitOfPair(low: nat, high: nat, i: nat)
    requires low <= 1
    ensures Bit(low + 2 * high, i) == if i == 0 then low == 1 else Bit(high, i - 1)
  {
    Halves(low, high);
  }

  lemma Halves(low: nat, high: nat)
    requires low <= 1
    ensures (low + 2 * high) / 2 == high && (low + 2 * high) % 2 == low
  {
  }

  lemma BitmapByte(bits: seq<bool>, j: nat)
    requires j < BLOCK_SIZE
    ensures BitmapBlock(bits)[j] as int == ByteOf(bits, j, 0)
  {
  }

  /** The written bitmap block says of every block what the bitmap says. */
  lemma BitmapWritten(bits: seq<bool>, image: seq<Byte>, b: nat)
    requires |bits| == NUM_BLOCKS && b < NUM_BLOCKS && |image| >= BLOCK_SIZE && image[..BLOCK_SIZE] == BitmapBlock(bits)
    ensures Bit(image[b / 8] as int, b % 8) <==> bits[b]
  {
    hide ByteOf, Bit;
    assert image[b / 8] == image[..BLOCK_SIZE][b / 8] == BitmapBlock(bits)[b / 8];
    BitmapByte(bits, b / 8);
    BitOfByte(bits, b / 8, 0, b % 8);
  }

  /** Nothing is open, and every inode in use is live. */
  ghost predicate AllLive(inodes: seq<Inode>) {
    forall i :: 0 <= i < |inodes| ==> Live(inodes[i])
  }

  ghost predicate Live(ino: Inode) {
    ino.refs == 0 && (ino.ftype == Unallocated || ino.valid)
  }

  lemma LiveAdded(inodes: seq<Inode>, i: nat, ino: Inode)
    requires AllLive(inodes) && i < |inodes| && Live(ino)
    ensures AllLive(inodes[i := ino])
  {
  }

  lemma LiveParent(inodes: seq<Inode>, i: nat, d: nat)
    requires AllLive(inodes) && i < |inodes|
    ensures AllLive(inodes[i := inodes[i].(parent := d)])
  {
  }

  /** The slots name `n` blocks from `b0` on and are zero behind them. */
  ghost predicate Consecutive(slots: seq<nat>, b0: nat, n: nat) {
    |slots| == NDIRECT && forall k :: 0 <= k < NDIRECT ==> slots[k] == if k < n then b0 + k else 0
  }

  lemma ConsecutiveOn(slots: seq<nat>, b0: nat, n: nat)
    requires Consecutive(slots, b0, n) && n < NDIRECT
    ensures |slots| == NDIRECT && Consecutive(slots[n := b0 + n], b0, n + 1)
  {
  }

  lemma AllStored(bytes: seq<Byte>, total: nat, idx: nat)
    requires total == Min(|bytes|, idx * BLOCK_SIZE) && (total == |bytes| || idx == NDIRECT) && idx <= NDIRECT
    ensures total <= |bytes| && bytes[..total] == Stored(bytes)
  {
  }

  lemma StoredBound(bytes: seq<Byte>, b0: nat)
    requires b0 + Blocks(|Stored(bytes)|) <= NUM_BLOCKS
    ensures |Stored(bytes)| <= FILE_MAX_SIZE && b0 * BLOCK_SIZE + |Stored(bytes)| <= DISK_SIZE
  {
  }

  lemma BlockBounds(bytes: seq<Byte>)
    ensures Blocks(0) == 0 && NDIRECT * BLOCK_SIZE == FILE_MAX_SIZE && Blocks(|Stored(bytes)|) <= NDIRECT
  {
  }

  /** A block that is still to come, and the count after it. */
  lemma BlockWanted(bytes: seq<Byte>, total: nat, idx: nat)
    requires total == Min(|bytes|, idx * BLOCK_SIZE) < |bytes| && idx == Blocks(total) < NDIRECT
    ensures idx < Blocks(|Stored(bytes)|) && total == idx * BLOCK_SIZE
    ensures var total' := Min(|bytes|, total + BLOCK_SIZE);
            total' == Min(|bytes|, (idx + 1) * BLOCK_SIZE) && Blocks(total') == idx + 1
  {
  }

  lemma RootPlaced(inodes: seq<Inode>, disk: seq<Byte>, tree: Node, hi: nat, b0: nat, b1: nat)
    requires Table(inodes) && |disk| == DISK_SIZE && tree.HostDir?
    requires Laid(inodes, disk, 0, tree, hi, b0, b1) && DirsIn(inodes, 0, hi)
    requires inodes[0].name == FS_ROOT_PATH
    requires forall i :: hi <= i < NUM_INODES ==> inodes[i] == ZERO_INODE
    ensures WellFormed(inodes)
  {
  }

  /** A directory whose entries all lie between it and `hi`. */
  ghost predicate DirOkIn(inodes: seq<Inode>, d: nat, hi: nat)
    requires Table(inodes) && d < NUM_INODES
  {
    DirOk(inodes, d) && forall k :: 0 <= k < inodes[d].head ==> d < inodes[d].slots[k] < hi
  }

  ghost predicate DirsIn(inodes: seq<Inode>, lo: nat, hi: nat)
    requires Table(inodes)
  {
    forall d :: lo <= d < hi && d < NUM_INODES && inodes[d].ftype == Directory ==> DirOkIn(inodes, d, hi)
  }

  lemma EmptyDirsIn(inodes: seq<Inode>, lo: nat)
    requires Table(inodes)
    ensures DirsIn(inodes, lo, lo)
  {
  }

  lemma DirsInFile(inodes: seq<Inode>, c: nat)
    requires Table(inodes) && c < NUM_INODES && inodes[c].ftype == File
    ensures DirsIn(inodes, c, c + 1)
  {
  }

  /** Directories keep their form when the inodes from their range on stay as they are. */
  lemma DirsInFrame(inodes: seq<Inode>, inodes': seq<Inode>, lo: nat, hi: nat, hi': nat)
    requires Table(inodes) && Table(inodes') && DirsIn(inodes, lo, hi) && hi <= hi'
    requires forall j :: lo <= j < hi && j < NUM_INODES ==> inodes'[j] == inodes[j]
    ensures forall d :: lo <= d < hi && d < NUM_INODES && inodes'[d].ftype == Directory ==> DirOkIn(inodes', d, hi')
  {
    forall d | lo <= d < hi && d < NUM_INODES && inodes'[d].ftype == Directory
      ensures DirOkIn(inodes', d, hi')
    {
      assert DirOkIn(inodes, d, hi);
      forall k | 0 <= k < inodes'[d].head
        ensures EntryOk(inodes', d, inodes'[d].slots[k])
      {
        assert EntryOk(inodes, d, inodes[d].slots[k]);
      }
    }
  }

  /** A host subdirectory never holds an entry called like its own path, so only the root can lose one. */
  lemma NoClash(path: string, e: Node)
    requires Legal(e) && e.HostDir?
    ensures forall k :: 0 <= k < |e.entries| ==> !Skipped(e.entries[k].name, path + "/" + e.name)
  {
    forall k | 0 <= k < |e.entries|
      ensures !Skipped(e.entries[k].name, path + "/" + e.name)
    {
      assert (path + "/" + e.name)[|path|] == '/';
      assert LegalName(e.entries[k].name);
    }
  }

  lemma NothingPruned(path: string, e: Node)
    requires Legal(e) && e.HostDir?
    ensures Pruned(e, path + "/" + e.name) == e
  {
    hide Legal, Kept;
    NoClash(path, e);
    KeptAll(e.entries, path + "/" + e.name);
  }

  lemma FileCounts(e: Node)
    requires e.HostFile?
    ensures NodeCount(e) == 1 && BlockCount(e) == Blocks(|Stored(e.bytes)|) && e == HostFile(e.name, e.bytes)
  {
  }

  lemma FrontKept(inodes: seq<Inode>, inodes': seq<Inode>, c: nat)
    requires c < |inodes| == |inodes'| && inodes' == inodes[c := inodes'[c]]
    ensures inodes'[..c] == inodes[..c]
  {
  }

  /** Setting the parent link of a placed node changes nothing else about it. */
  lemma ParentSet(inodes: seq<Inode>, disk: seq<Byte>, c: nat, node: Node, hi: nat, b0: nat, b1: nat, d: nat)
    requires Table(inodes) && |disk| == DISK_SIZE && c < NUM_INODES
    requires Laid(inodes, disk, c, node, hi, b0, b1) && DirsIn(inodes, c, hi)
    requires FilesApart(inodes, b1)
    ensures var inodes' := inodes[c := inodes[c].(parent := d)];
            && Laid(inodes', disk, c, node, hi, b0, b1)
            && DirsIn(inodes', c, hi)
            && FilesApart(inodes', b1)
  {
    var inodes' := inodes[c := inodes[c].(parent := d)];
    LaidFrame(inodes, inodes', disk, disk, c, node, hi, b0, b1, hi, b1);
    ParentSetFiles(inodes, c, b1, d);
    ParentSetDirs(inodes, c, hi, d);
  }

  lemma ParentSetDirs(inodes: seq<Inode>, c: nat, hi: nat, d: nat)
    requires Table(inodes) && c < NUM_INODES && DirsIn(inodes, c, hi)
    ensures DirsIn(inodes[c := inodes[c].(parent := d)], c, hi)
  {
    var inodes' := inodes[c := inodes[c].(parent := d)];
    forall j | c <= j < hi && j < NUM_INODES && inodes'[j].ftype == Directory
      ensures DirOkIn(inodes', j, hi)
    {
      assert DirOkIn(inodes, j, hi);
      forall k | 0 <= k < inodes'[j].head
        ensures EntryOk(inodes', j, inodes'[j].slots[k])
      {
        assert EntryOk(inodes, j, inodes[j].slots[k]);
      }
    }
  }

  lemma ParentSetFiles(inodes: seq<Inode>, c: nat, top: nat, d: nat)
    requires Table(inodes) && c < NUM_INODES && FilesApart(inodes, top)
    ensures FilesApart(inodes[c := inodes[c].(parent := d)], top)
  {
    hide Blocks;
    var inodes' := inodes[c := inodes[c].(parent := d)];
    forall i | 0 <= i < NUM_INODES && inodes'[i].ftype == File
      ensures FileOk(inodes'[i]) && StaleSlot(inodes'[i])
      ensures forall k :: 0 <= k < Blocks(inodes'[i].head) ==> inodes'[i].slots[k] < top
    {
      assert FileOk(inodes[i]) && StaleSlot(inodes[i]);
    }
    forall i, j | 0 <= i < j < NUM_INODES && inodes'[i].ftype == File && inodes'[j].ftype == File
      ensures Disjoint(inodes'[i], inodes'[j])
    {
      assert Disjoint(inodes[i], inodes[j]);
    }
  }

  /** The directory under construction lists exactly the entries placed so far. */
  ghost predicate EntriesLaid(inodes: seq<Inode>, disk: seq<Byte>, d: nat, dir: Inode, entries: seq<Node>,
                              hi: nat, b0: nat, b1: nat)
    requires Table(inodes) && |disk| == DISK_SIZE
  {
    && hi <= NUM_INODES && |dir.slots| == NDIRECT && dir.head == |entries| <= NDIRECT
    && forall k :: 0 <= k < |entries| ==>
         && d < dir.slots[k] < hi
         && inodes[dir.slots[k]].name == entries[k].name
         && inodes[dir.slots[k]].parent == d
         && Laid(inodes, disk, dir.slots[k], entries[k], hi, b0, b1)
  }

  lemma NothingPlaced(inodes: seq<Inode>, disk: seq<Byte>, d: nat, dir: Inode, es: seq<Node>, path: string,
                      hi: nat, b0: nat)
    requires Table(inodes) && |disk| == DISK_SIZE && hi <= NUM_INODES && |dir.slots| == NDIRECT && dir.head == 0
    ensures Kept(es[..0], path) == [] && NodesOf([]) == 0 && BlocksOf([]) == 0
    ensures EntriesLaid(inodes, disk, d, dir, [], hi, b0, b0) && SameBlocks(disk, disk, FIRST_DATA_BLOCK, b0)
  {
  }

  lemma SameBlocksOn(disk: seq<Byte>, disk': seq<Byte>, disk'': seq<Byte>, b0: nat, b1: nat)
    requires SameBlocks(disk, disk', FIRST_DATA_BLOCK, b0) && SameBlocks(disk', disk'', FIRST_DATA_BLOCK, b1)
             && b0 <= b1
    ensures SameBlocks(disk, disk'', FIRST_DATA_BLOCK, b0)
  {
  }

  /** Placing entry `k` extends the list and leaves the earlier entries as they are. */
  lemma EntryPlaced(inodes: seq<Inode>, inodes': seq<Inode>, disk: seq<Byte>, disk': seq<Byte>, d: nat, dir: Inode,
                    entries: seq<Node>, k: nat, c: nat, hi: nat, b0: nat, b1: nat, hi': nat, b1': nat)
    requires Table(inodes) && Table(inodes') && |disk| == DISK_SIZE && SameBlocks(disk, disk', FIRST_DATA_BLOCK, b1)
    requires k < |entries| && k < NDIRECT
    requires EntriesLaid(inodes, disk, d, dir, entries[..k], hi, b0, b1) && DirsIn(inodes, d + 1, hi)
    requires d < c == hi < hi' <= NUM_INODES && FIRST_DATA_BLOCK <= b0 <= b1 <= b1'
    requires inodes'[..hi] == inodes[..hi]
    requires inodes'[c].name == entries[k].name && inodes'[c].parent == d
    requires Laid(inodes', disk', c, entries[k], hi', b1, b1') && DirsIn(inodes', c, hi')
    ensures EntriesLaid(inodes', disk', d, dir.(slots := dir.slots[dir.head := c], head := dir.head + 1),
                        entries[..k + 1], hi', b0, b1')
    ensures DirsIn(inodes', d + 1, hi')
    ensures dir.head == k && |dir.slots| == NDIRECT
    ensures inodes'[..d + 1] == inodes[..d + 1]
  {
    assert inodes'[..d + 1] == inodes'[..hi][..d + 1] == inodes[..hi][..d + 1];
    forall j | 0 <= j < hi ensures inodes'[j] == inodes[j] {
      assert inodes'[..hi][j] == inodes[..hi][j];
    }
    DirsInFrame(inodes, inodes', d + 1, hi, hi');
    LaidWiden(inodes', disk', c, entries[k], hi', b1, b1', b0);
    forall m | 0 <= m < k
      ensures Laid(inodes', disk', dir.slots[m], entries[m], hi', b0, b1')
    {
      assert entries[..k][m] == entries[m];
      LaidFrame(inodes, inodes', disk, disk', dir.slots[m], entries[m], hi, b0, b1, hi', b1');
    }
  }

  lemma {:induction false} LaidWiden(inodes: seq<Inode>, disk: seq<Byte>, i: nat, node: Node,
                                     hi: nat, b0: nat, b1: nat, b0': nat)
    requires Table(inodes) && |disk| == DISK_SIZE && b0' <= b0
    requires Laid(inodes, disk, i, node, hi, b0, b1)
    ensures Laid(inodes, disk, i, node, hi, b0', b1)
    decreases node
  {
    if node.HostDir? {
      forall k | 0 <= k < |node.entries|
        ensures Laid(inodes, disk, inodes[i].slots[k], node.entries[k], hi, b0', b1)
      {
        LaidWiden(inodes, disk, inodes[i].slots[k], node.entries[k], hi, b0, b1, b0');
      }
    }
  }

  /** Writing the finished directory into its reserved inode. */
  lemma DirPlaced(inodes: seq<Inode>, disk: seq<Byte>, d: nat, dir: Inode, node: Node, hi: nat, b0: nat, b1: nat)
    requires Table(inodes) && |disk| == DISK_SIZE && d < hi <= NUM_INODES
    requires node.HostDir? && Legal(node) && dir.ftype == Directory && inodes[d].ftype != File
    requires EntriesLaid(inodes, disk, d, dir, node.entries, hi, b0, b1) && DirsIn(inodes, d + 1, hi)
    requires FilesApart(inodes, b1)
    ensures var inodes' := inodes[d := dir];
            && Laid(inodes', disk, d, node, hi, b0, b1)
            && DirsIn(inodes', d, hi)
            && FilesApart(inodes', b1)
  {
    hide Laid, FilesApart, DirsIn, Legal;
    DirLaid(inodes, disk, d, dir, node, hi, b0, b1);
    DirPlacedDirs(inodes, disk, d, dir, node, hi, b0, b1);
    DirPlacedFiles(inodes, d, dir, b1);
  }

  lemma DirLaid(inodes: seq<Inode>, disk: seq<Byte>, d: nat, dir: Inode, node: Node, hi: nat, b0: nat, b1: nat)
    requires Table(inodes) && |disk| == DISK_SIZE && d < hi <= NUM_INODES
    requires node.HostDir? && dir.ftype == Directory
    requires EntriesLaid(inodes, disk, d, dir, node.entries, hi, b0, b1)
    ensures Laid(inodes[d := dir], disk, d, node, hi, b0, b1)
  {
    var inodes' := inodes[d := dir];
    forall k | 0 <= k < |node.entries|
      ensures Laid(inodes', disk, dir.slots[k], node.entries[k], hi, b0, b1)
    {
      LaidFrame(inodes, inodes', disk, disk, dir.slots[k], node.entries[k], hi, b0, b1, hi, b1);
    }
  }

  lemma DirPlacedDirs(inodes: seq<Inode>, disk: seq<Byte>, d: nat, dir: Inode, node: Node, hi: nat, b0: nat, b1: nat)
    requires Table(inodes) && |disk| == DISK_SIZE && d < hi <= NUM_INODES
    requires node.HostDir? && Legal(node) && dir.ftype == Directory
    requires EntriesLaid(inodes, disk, d, dir, node.entries, hi, b0, b1) && DirsIn(inodes, d + 1, hi)
    ensures DirsIn(inodes[d := dir], d, hi)
  {
    var inodes' := inodes[d := dir];
    DirsInFrame(inodes, inodes', d + 1, hi, hi);
    forall k | 0 <= k < |node.entries|
      ensures EntryOk(inodes', d, dir.slots[k]) && inodes'[dir.slots[k]].name == node.entries[k].name
    {
      LaidAllocated(inodes, disk, dir.slots[k], node.entries[k], hi, b0, b1);
    }
    hide Laid;
    assert DirOkIn(inodes', d, hi);
  }

  lemma DirPlacedFiles(inodes: seq<Inode>, d: nat, dir: Inode, top: nat)
    requires Table(inodes) && d < NUM_INODES && |dir.slots| == NDIRECT
    requires dir.ftype != File && FilesApart(inodes, top)
    ensures FilesApart(inodes[d := dir], top)
  {
  }

  lemma LaidAllocated(inodes: seq<Inode>, disk: seq<Byte>, i: nat, node: Node, hi: nat, b0: nat, b1: nat)
    requires Table(inodes) && |disk| == DISK_SIZE && Laid(inodes, disk, i, node, hi, b0, b1)
    ensures inodes[i].ftype != Unallocated
  {
  }

  lemma FreshFileOk(ino: Inode, b0: nat, b1: nat)
    requires ino.head <= FILE_MAX_SIZE
    requires FIRST_DATA_BLOCK <= b0 && b0 + Blocks(ino.head) == b1 <= NUM_BLOCKS
    requires Consecutive(ino.slots, b0, Blocks(ino.head))
    ensures FileOk(ino) && StaleSlot(ino) && InImage(ino)
    ensures forall k :: 0 <= k < Blocks(ino.head) ==> b0 <= ino.slots[k] < b1
  {
  }

  lemma FileLaid(inodes: seq<Inode>, disk: seq<Byte>, i: nat, node: Node, hi: nat, b0: nat, b1: nat)
    requires Table(inodes) && |disk| == DISK_SIZE && i < hi <= NUM_INODES
    requires node.HostFile? && inodes[i].ftype == File && FileOk(inodes[i])
    requires forall k :: 0 <= k < Blocks(inodes[i].head) ==> b0 <= inodes[i].slots[k] < b1
    requires Contents(disk, inodes[i]) == Stored(node.bytes)
    ensures Laid(inodes, disk, i, node, hi, b0, b1)
  {
  }

  /** Storing from block `b0` on leaves earlier blocks alone and puts the bytes at its start. */
  lemma ImageAfter(disk: seq<Byte>, disk': seq<Byte>, meta: seq<Byte>, meta': seq<Byte>,
                   data: seq<Byte>, data': seq<Byte>, b0: nat, bytes: seq<Byte>)
    requires |meta| == |meta'| == FIRST_DATA_BLOCK * BLOCK_SIZE
    requires |data| == |data'| == BLOCK_SIZE * (NUM_BLOCKS - NUM_INODE_BLOCKS)
    requires disk == meta + data[..(NUM_BLOCKS - FIRST_DATA_BLOCK) * BLOCK_SIZE]
    requires disk' == meta' + data'[..(NUM_BLOCKS - FIRST_DATA_BLOCK) * BLOCK_SIZE]
    requires FIRST_DATA_BLOCK <= b0 <= NUM_BLOCKS && b0 * BLOCK_SIZE + |bytes| <= DISK_SIZE
    requires var at := (b0 - FIRST_DATA_BLOCK) * BLOCK_SIZE;
             data'[..at] == data[..at] && data'[at..at + |bytes|] == bytes
    ensures SameBlocks(disk, disk', FIRST_DATA_BLOCK, b0)
    ensures disk'[b0 * BLOCK_SIZE..b0 * BLOCK_SIZE + |bytes|] == bytes
  {
    var at := (b0 - FIRST_DATA_BLOCK) * BLOCK_SIZE;
    forall a | |meta| <= a < b0 * BLOCK_SIZE
      ensures disk'[a] == disk[a]
    {
      assert data'[..at][a - |meta|] == data[..at][a - |meta|];
    }
    assert disk'[b0 * BLOCK_SIZE..b0 * BLOCK_SIZE + |bytes|] == data'[at..at + |bytes|];
  }

  /** A new file in fresh blocks keeps the files apart. */
  lemma FilesApartAdd(inodes: seq<Inode>, i: nat, ino: Inode, top: nat, top': nat)
    requires Table(inodes) && i < NUM_INODES && inodes[i].ftype != File
    requires FilesApart(inodes, top) && top <= top'
    requires ino.ftype == File && FileOk(ino) && StaleSlot(ino)
    requires forall k :: 0 <= k < Blocks(ino.head) ==> top <= ino.slots[k] < top'
    ensures FilesApart(inodes[i := ino], top')
  {
  }

  lemma Appended(before: seq<Byte>, after: seq<Byte>, at: nat, total: nat, bytes: seq<Byte>, read: nat)
    requires total + read <= |bytes| && at + total + read <= |before| == |after|
    requires after[..at + total] == before[..at + total]
    requires before[at..at + total] == bytes[..total]
    requires after[at + total..at + total + read] == bytes[total..total + read]
    ensures after[at..at + (total + read)] == bytes[..total + read]
    ensures after[..at] == before[..at]
  {
    assert after[at..at + total] == after[..at + total][at..] == before[..at + total][at..] == bytes[..total];
    assert after[at..at + (total + read)] == after[at..at + total] + after[at + total..at + total + read];
    assert bytes[..total + read] == bytes[..total] + bytes[total..total + read];
    assert after[..at] == after[..at + total][..at] == before[..at];
  }

  class Builder {
    const fsDir: string
    const data: array<Byte>
    const bitmap: array<bool>
    const table: seq<Byte>  // the inode blocks as bytes
    var inodes: seq<Inode>
    var currInode: nat
    var currBlock: nat

    /** The empty image of `main`: only the bitmap and inode blocks are in use. */
    constructor (fsDir: string, table: seq<Byte>)
      requires |table| == NUM_INODE_BLOCKS * BLOCK_SIZE
      ensures Valid() && fresh(data) && fresh(bitmap)
      ensures this.fsDir == fsDir
      ensures currInode == 0 && currBlock == FIRST_DATA_BLOCK
    {
      this.fsDir, this.table := fsDir, table;
      data := new Byte[BLOCK_SIZE * (NUM_BLOCKS - NUM_INODE_BLOCKS)](_ => 0);
      bitmap := new bool[NUM_BLOCKS](i => i < FIRST_DATA_BLOCK);
      inodes := seq(NUM_INODES, _ => ZERO_INODE);
      currInode, currBlock := 0, FIRST_DATA_BLOCK;
    }

    /** The block half of the state: exactly the blocks below the next one are marked used. */
    ghost predicate BlocksOk()
      reads this, bitmap
    {
      && data.Length == BLOCK_SIZE * (NUM_BLOCKS - NUM_INODE_BLOCKS)
      && bitmap.Length == NUM_BLOCKS
      && |table| == NUM_INODE_BLOCKS * BLOCK_SIZE
      && FIRST_DATA_BLOCK <= currBlock <= NUM_BLOCKS
      && (forall b :: 0 <= b < NUM_BLOCKS ==> (bitmap[b] <==> b < currBlock))
    }

    ghost predicate Valid()
      reads this, bitmap
    {
      && BlocksOk()
      && Table(inodes)
      && currInode <= NUM_INODES
      && (forall i :: currInode <= i < NUM_INODES ==> inodes[i] == ZERO_INODE)
      && FilesApart(inodes, currBlock)
      && AllLive(inodes)
    }

    /** The image as written out: bitmap and inode blocks, then the data blocks. */
    ghost function Image(): (disk: seq<Byte>)
      requires data.Length == BLOCK_SIZE * (NUM_BLOCKS - NUM_INODE_BLOCKS)
      requires |table| == NUM_INODE_BLOCKS * BLOCK_SIZE
      reads data, bitmap
      ensures |disk| == DISK_SIZE
    {
      BitmapBlock(bitmap[..]) + table + data[..(NUM_BLOCKS - FIRST_DATA_BLOCK) * BLOCK_SIZE]
    }

    /** Copy one block-sized buffer, zero-padded after `chunk`, to data block `b`. */
    method CopyBlock(b: nat, chunk: seq<Byte>)
      requires data.Length == BLOCK_SIZE * (NUM_BLOCKS - NUM_INODE_BLOCKS)
      requires FIRST_DATA_BLOCK <= b < NUM_BLOCKS && |chunk| <= BLOCK_SIZE
      modifies data
      ensures var at := (b - FIRST_DATA_BLOCK) * BLOCK_SIZE;
              data[..at] == old(data[..at]) && data[at..at + |chunk|] == chunk
    {
      var at := (b - FIRST_DATA_BLOCK) * BLOCK_SIZE;
      for j := 0 to BLOCK_SIZE
        invariant data[..at] == old(data[..at])
        invariant j <= |chunk| ==> data[at..at + j] == chunk[..j]
        invariant j > |chunk| ==> data[at..at + |chunk|] == chunk
      {
        data[at + j] := if j < |chunk| then chunk[j] else 0;
      }
    }

    /** One round of the read loop: the next buffer goes to the next block. */
    method StoreBlock(bytes: seq<Byte>, total: nat, ghost at: nat) returns (total': nat)
      requires BlocksOk() && currBlock < NUM_BLOCKS && total < |bytes|
      requires at + total == (currBlock - FIRST_DATA_BLOCK) * BLOCK_SIZE
      requires data[at..at + total] == bytes[..total]
      modifies this`currBlock, data, bitmap
      ensures BlocksOk() && currBlock == old(currBlock) + 1
      ensures total' == Min(|bytes|, total + BLOCK_SIZE)
      ensures data[..at] == old(data[..at]) && data[at..at + total'] == bytes[..total']
    {
      var read := Min(BLOCK_SIZE, |bytes| - total);
      ghost var before := data[..];
      CopyBlock(currBlock, bytes[total..total + read]);
      Appended(before, data[..], at, total, bytes, read);
      bitmap[currBlock] := true;
      currBlock := currBlock + 1;
      total' := total + read;
    }

    /** The read loop of `process_file`: one fresh block per buffer, at most 21 of them. */
    method StoreBytes(bytes: seq<Byte>) returns (slots: seq<nat>, total: nat)
      requires BlocksOk() && currBlock + Blocks(|Stored(bytes)|) <= NUM_BLOCKS
      modifies this`currBlock, data, bitmap
      ensures BlocksOk()
      ensures total == |Stored(bytes)| && Consecutive(slots, old(currBlock), Blocks(total))
      ensures currBlock == old(currBlock) + Blocks(total)
      ensures var at := (old(currBlock) - FIRST_DATA_BLOCK) * BLOCK_SIZE;
              data[..at] == old(data[..at]) && data[at..at + total] == Stored(bytes)
    {
      hide Blocks;
      ghost var b0 := currBlock;
      ghost var at := (b0 - FIRST_DATA_BLOCK) * BLOCK_SIZE;
      slots := seq(NDIRECT, _ => 0);
      total := 0;
      var idx := 0;
      BlockBounds(bytes);
      assert Consecutive(slots, b0, 0) && data[at..at + 0] == bytes[..0];
      hide Consecutive, Stored;
      while total < |bytes|
        invariant BlocksOk() && 0 <= idx <= NDIRECT && Consecutive(slots, b0, idx)
        invariant total == Min(|bytes|, idx * BLOCK_SIZE) && idx == Blocks(total)
        invariant currBlock == b0 + idx
        invariant data[..at] == old(data[..at]) && data[at..at + total] == bytes[..total]
        decreases |bytes| - total
      {
        if idx >= NDIRECT {
          break;
        }
        BlockWanted(bytes, total, idx);
        ConsecutiveOn(slots, b0, idx);
        slots := slots[idx := currBlock];
        total := StoreBlock(bytes, total, at);
        idx := idx + 1;
      }
      AllStored(bytes, total, idx);
    }

    /** `process_file`: the next inode holds the file, in fresh blocks. */
    method ProcessFile(path: string, name: string, bytes: seq<Byte>) returns (idx: nat)
      requires Valid() && currInode < NUM_INODES
      requires currBlock + Blocks(|Stored(bytes)|) <= NUM_BLOCKS
      modifies this, data, bitmap
      ensures Valid() && idx == old(currInode) && currInode == idx + 1
      ensures currBlock == old(currBlock) + Blocks(|Stored(bytes)|)
      ensures inodes == old(inodes)[idx := inodes[idx]]
      ensures inodes[idx].name == StoredName(FileName(path)) && inodes[idx].ftype == File
      ensures SameBlocks(old(Image()), Image(), FIRST_DATA_BLOCK, old(currBlock))
      ensures Laid(inodes, Image(), idx, HostFile(name, bytes), currInode, old(currBlock), currBlock)
    {
      hide FilesApart, FileOk, InImage, Contents, StaleSlot, SameBlocks, BitmapBlock, Laid, AllLive, Stored, Blocks;
      ghost var b0 := currBlock;
      var ino := StoreFile(StoredName(FileName(path)), bytes);
      FilesApartAdd(inodes, currInode, ino, b0, currBlock);
      LiveAdded(inodes, currInode, ino);
      inodes := inodes[currInode := ino];
      idx := currInode;
      currInode := currInode + 1;
      FileLaid(inodes, Image(), idx, HostFile(name, bytes), currInode, b0, currBlock);
    }

    /** The inode of a file whose bytes have been stored. */
    method StoreFile(name: string, bytes: seq<Byte>) returns (ino: Inode)
      requires BlocksOk() && currBlock + Blocks(|Stored(bytes)|) <= NUM_BLOCKS
      modifies this`currBlock, data, bitmap
      ensures BlocksOk() && currBlock == old(currBlock) + Blocks(|Stored(bytes)|)
      ensures ino.name == name && ino.ftype == File && Live(ino) && |ino.slots| == NDIRECT
      ensures FileOk(ino) && InImage(ino) && StaleSlot(ino)
      ensures forall k :: 0 <= k < Blocks(ino.head) ==> old(currBlock) <= ino.slots[k] < currBlock
      ensures SameBlocks(old(Image()), Image(), FIRST_DATA_BLOCK, old(currBlock))
      ensures Contents(Image(), ino) == Stored(bytes)
    {
      hide FileOk, InImage, Contents, StaleSlot, SameBlocks, BitmapBlock, Stored, Blocks;
      ghost var b0, disk, bits, before := currBlock, Image(), bitmap[..], data[..];
      var slots, total := StoreBytes(bytes);
      StoredBound(bytes, b0);
      ImageAfter(disk, Image(), BitmapBlock(bits) + table, BitmapBlock(bitmap[..]) + table, before, data[..], b0,
                 Stored(bytes));
      ino := Inode(name, File, 0, total, slots, true, 0);
      FreshFileOk(ino, b0, currBlock);
      ConsecutiveContents(Image(), ino, b0);
    }

    /** What `process_file` and `process_dir` both do: lay the node out at the next inode. */
    ghost predicate Placed(c: nat, b0: nat, node: Node, inodes0: seq<Inode>, disk0: seq<Byte>)
      requires Valid() && |inodes0| == NUM_INODES
      reads this, bitmap, data
    {
      && c < currInode == c + NodeCount(node) && currBlock == b0 + BlockCount(node)
      && inodes[..c] == inodes0[..c]
      && SameBlocks(disk0, Image(), FIRST_DATA_BLOCK, b0)
      && Laid(inodes, Image(), c, node, currInode, b0, currBlock)
      && DirsIn(inodes, c, currInode)
    }

    /** One host entry: dispatch on its kind, then point the new inode back to directory `d`. */
    method ProcessEntry(path: string, e: Node, d: nat) returns (c: nat)
      requires Valid() && Legal(e) && LegalName(e.name) && d < NUM_INODES
      requires currInode + NodeCount(e) <= NUM_INODES && currBlock + BlockCount(e) <= NUM_BLOCKS
      requires |path| >= |fsDir|
      modifies this, data, bitmap
      ensures Valid() && c == old(currInode)
      ensures Placed(c, old(currBlock), e, old(inodes), old(Image()))
      ensures inodes[c].name == e.name && inodes[c].parent == d
      decreases e, 3
    {
      hide Legal, Laid, FilesApart, DirsIn, AllLive, SameBlocks, BitmapBlock, Pruned, FileName, NodeCount, BlockCount;
      FileNameOfJoin(path, e.name);
      if e.HostFile? {
        FileCounts(e);
        c := ProcessFile(path + "/" + e.name, e.name, e.bytes);
        DirsInFile(inodes, c);
        FrontKept(old(inodes), inodes, c);
      } else {
        NothingPruned(path, e);
        c := ProcessDir(path + "/" + e.name, e);
      }
      FrontKept(inodes, inodes[c := inodes[c].(parent := d)], c);
      ParentSet(inodes, Image(), c, e, currInode, old(currBlock), currBlock, d);
      LiveParent(inodes, c, d);
      inodes := inodes[c := inodes[c].(parent := d)];
    }

    /** `process_dir`: reserve an inode, place every entry after it, then write the directory. */
    method ProcessDir(path: string, node: Node) returns (idx: nat)
      requires Valid() && node.HostDir? && Legal(Pruned(node, path)) && |path| >= |fsDir|
      requires currInode + NodeCount(Pruned(node, path)) <= NUM_INODES
      requires currBlock + BlockCount(Pruned(node, path)) <= NUM_BLOCKS
      modifies this, data, bitmap
      ensures Valid() && idx == old(currInode)
      ensures Placed(idx, old(currBlock), Pruned(node, path), old(inodes), old(Image()))
      ensures inodes[idx].name == if path == fsDir then FS_ROOT_PATH else StoredName(FileName(path))
      decreases node, 2
    {
      hide Laid, FilesApart, DirsIn, Legal, LegalName, NodesOf, BlocksOf, BitmapBlock, Kept, AllLive;
      ghost var b0, disk0, inodes0 := currBlock, Image(), inodes;
      idx := currInode;
      currInode := currInode + 1;
      var dir := Inode(if path == fsDir then FS_ROOT_PATH else StoredName(FileName(path)),
                       Directory, 0, 0, seq(NDIRECT, _ => 0), true, 0);
      dir := PlaceEntries(path, node, idx, dir);
      DirPlaced(inodes, Image(), idx, dir, Pruned(node, path), currInode, b0, currBlock);
      LiveAdded(inodes, idx, dir);
      assert inodes[idx := dir][..idx] == inodes[..idx + 1][..idx] == inodes0[..idx + 1][..idx];
      inodes := inodes[idx := dir];
    }

    /** One round of the `readdir` loop, on the entry that comes `m`th among those taken in. */
    method PlaceEntry(path: string, e: Node, idx: nat, dir: Inode, ghost all: seq<Node>, ghost m: nat, ghost b0: nat)
      returns (dir': Inode)
      requires Valid() && Legal(e) && LegalName(e.name) && |path| >= |fsDir| && m < |all| && m < NDIRECT && all[m] == e
      requires currInode == idx + 1 + NodesOf(all[..m]) && currInode + NodeCount(e) <= NUM_INODES
      requires currBlock == b0 + BlocksOf(all[..m]) && currBlock + BlockCount(e) <= NUM_BLOCKS && FIRST_DATA_BLOCK <= b0
      requires EntriesLaid(inodes, Image(), idx, dir, all[..m], currInode, b0, currBlock)
      requires DirsIn(inodes, idx + 1, currInode)
      modifies this, data, bitmap
      ensures Valid() && idx < currInode && inodes[..idx + 1] == old(inodes)[..idx + 1]
      ensures currInode == idx + 1 + NodesOf(all[..m + 1]) && currBlock == b0 + BlocksOf(all[..m + 1])
      ensures SameBlocks(old(Image()), Image(), FIRST_DATA_BLOCK, old(currBlock))
      ensures dir' == dir.(head := dir'.head, slots := dir'.slots)
      ensures EntriesLaid(inodes, Image(), idx, dir', all[..m + 1], currInode, b0, currBlock)
      ensures DirsIn(inodes, idx + 1, currInode)
      decreases e, 4
    {
      hide Laid, FilesApart, DirsIn, EntriesLaid, Legal, LegalName, NodesOf, BlocksOf, BitmapBlock, AllLive;
      CountsOfPrefix(all, m);
      ghost var inodes0, disk0, hi0, b1 := inodes, Image(), currInode, currBlock;
      var c := ProcessEntry(path, e, idx);
      EntryPlaced(inodes0, inodes, disk0, Image(), idx, dir, all, m, c, hi0, b0, b1, currInode, currBlock);
      dir' := dir.(slots := dir.slots[dir.head := c], head := dir.head + 1);
    }

    /** The `readdir` loop: place every entry and list it in the directory under construction. */
    method PlaceEntries(path: string, node: Node, idx: nat, dir0: Inode) returns (dir: Inode)
      requires Valid() && node.HostDir? && Legal(Pruned(node, path)) && |path| >= |fsDir|
      requires idx + 1 == currInode && currInode + NodesOf(Kept(node.entries, path)) <= NUM_INODES
      requires currBlock + BlocksOf(Kept(node.entries, path)) <= NUM_BLOCKS
      requires dir0.head == 0 && |dir0.slots| == NDIRECT
      modifies this, data, bitmap
      ensures Valid() && inodes[..idx + 1] == old(inodes)[..idx + 1]
      ensures currInode == idx + 1 + NodesOf(Kept(node.entries, path))
      ensures currBlock == old(currBlock) + BlocksOf(Kept(node.entries, path))
      ensures SameBlocks(old(Image()), Image(), FIRST_DATA_BLOCK, old(currBlock))
      ensures dir == dir0.(head := dir.head, slots := dir.slots)
      ensures EntriesLaid(inodes, Image(), idx, dir, Kept(node.entries, path), currInode, old(currBlock), currBlock)
      ensures DirsIn(inodes, idx + 1, currInode)
      decreases node, 1
    {
      hide Laid, FilesApart, DirsIn, Legal, LegalName, NodesOf, BlocksOf, BitmapBlock, Pruned, Skipped, EntriesLaid,
           Kept, SameBlocks, AllLive;
      ghost var b0, disk0, inodes0 := currBlock, Image(), inodes;
      EmptyDirsIn(inodes, currInode);
      dir := dir0;
      var entries := node.entries;
      NothingPlaced(inodes, disk0, idx, dir, entries, path, currInode, b0);
      for k := 0 to |entries|
        invariant Valid() && idx < currInode && inodes[..idx + 1] == inodes0[..idx + 1]
        invariant currInode == idx + 1 + NodesOf(Kept(entries[..k], path))
        invariant currBlock == b0 + BlocksOf(Kept(entries[..k], path))
        invariant SameBlocks(disk0, Image(), FIRST_DATA_BLOCK, b0)
        invariant dir == dir0.(head := dir.head, slots := dir.slots)
        invariant EntriesLaid(inodes, Image(), idx, dir, Kept(entries[..k], path), currInode, b0, currBlock)
        invariant DirsIn(inodes, idx + 1, currInode)
      {
        KeptPrefix(entries, k, path);
        if Skipped(entries[k].name, path) {
          continue;
        }
        KeptAt(entries, k, path);
        CountsOfPrefix(Kept(entries, path), |Kept(entries[..k], path)|);
        LegalEntry(Pruned(node, path), |Kept(entries[..k], path)|);
        ghost var disk1, b1 := Image(), currBlock;
        dir := PlaceEntry(path, entries[k], idx, dir, Kept(entries, path), |Kept(entries[..k], path)|, b0);
        SameBlocksOn(disk0, disk1, Image(), b0, b1);
      }
      assert entries[..|entries|] == entries;
    }

    /**
     * Building a tree that fits yields an image that holds it, but for a top-level entry called
     * like the directory mkfs was given; its directories are all well formed, its files own
     * distinct data blocks, and its bitmap marks exactly the blocks in use.
     */
    method Build(tree: Node)
      requires Valid() && currInode == 0 && currBlock == FIRST_DATA_BLOCK
      requires tree.HostDir? && Legal(Pruned(tree, fsDir))
      requires NodeCount(Pruned(tree, fsDir)) <= NUM_INODES
      requires FIRST_DATA_BLOCK + BlockCount(Pruned(tree, fsDir)) <= NUM_BLOCKS
      modifies this, data, bitmap
      ensures Valid() && WellFormed(inodes) && AllLive(inodes)
      ensures currInode == NodeCount(Pruned(tree, fsDir))
      ensures currBlock == FIRST_DATA_BLOCK + BlockCount(Pruned(tree, fsDir))
      ensures Laid(inodes, Image(), 0, Pruned(tree, fsDir), currInode, FIRST_DATA_BLOCK, currBlock)
    {
      hide FilesApart, Legal, Pruned, AllLive;
      var root := ProcessDir(fsDir, tree);
      RootPlaced(inodes, Image(), Pruned(tree, fsDir), currInode, FIRST_DATA_BLOCK, currBlock);
    }

    /** The three `fwrite` calls; what the written bitmap block says of a block is what the bitmap says. */
    method WriteImage() returns (image: array<Byte>)
      requires BlocksOk()
      ensures fresh(image) && image.Length == DISK_SIZE && image[..] == Image()
      ensures forall b :: 0 <= b < NUM_BLOCKS ==> (Bit(image[b / 8] as int, b % 8) <==> b < currBlock)
    {
      hide BitmapBlock, Bit;
      image := new Byte[DISK_SIZE];
      var meta := BitmapBlock(bitmap[..]) + table;
      for i := 0 to DISK_SIZE
        invariant image[..i] == Image()[..i]
      {
        image[i] := if i < |meta| then meta[i] else data[i - |meta|];
      }
      assert image[..BLOCK_SIZE] == Image()[..BLOCK_SIZE] == BitmapBlock(bitmap[..]);
      forall b | 0 <= b < NUM_BLOCKS ensures Bit(image[b / 8] as int, b % 8) <==> b < currBlock {
        BitmapWritten(bitmap[..], image[..], b);
      }
    }
  }

  /**
   * Build an image from a host tree, hand it to the kernel, look a file's path up and read it:
   * the caller's buffer then holds the file's bytes, unless the path starts with the name mkfs
   * was given for the directory.
   */
  method BuildThenRead(tree: Node, fsDir: string, table: seq<Byte>,
                       names: seq<string>, name: string, bytes: seq<Byte>) returns (r: Resolution, buf: array<Byte>)
    requires |table| == NUM_INODE_BLOCKS * BLOCK_SIZE
    requires tree.HostDir? && Legal(Pruned(tree, fsDir))
    requires NodeCount(Pruned(tree, fsDir)) <= NUM_INODES
    requires FIRST_DATA_BLOCK + BlockCount(Pruned(tree, fsDir)) <= NUM_BLOCKS
    requires InTree(tree, names, HostFile(name, bytes)) && LegalName(names[0])
    ensures r.Found? <==> names[0] != fsDir
    ensures !r.Found? ==> r == Missing
    ensures r.Found? ==> buf.Length == |bytes| && buf[..|Stored(bytes)|] == Stored(bytes)
    ensures r.Found? && |bytes| <= FILE_MAX_SIZE ==> buf[..] == bytes
  {
    hide Laid, WellFormed, FilesApart, Legal, InTree, HoldsFile, Follow, Lookup, NodeCount, BlockCount, PathString;
    hide Pruned, LegalName, BitmapBlock, Bit, AllLive;
    NotRoot(tree, names, HostFile(name, bytes));
    var builder := new Builder(fsDir, table);
    builder.Build(tree);
    var image := builder.WriteImage();
    RootFollows(builder.inodes);
    ReadBackUnlessDropped(builder.inodes, image[..], tree, fsDir, builder.currInode, FIRST_DATA_BLOCK,
                          builder.currBlock, names, name, bytes, 0);
    var kernel := new FileSystem(image, builder.bitmap, builder.inodes);
    r := Lookup(kernel.inodes, 0, FS_ROOT_PATH + PathString(names), true);
    HeldIsFound(kernel.inodes, image[..], r, Stored(bytes));
    if r.Found? {
      buf := ReadWhole(kernel, r, |bytes|, Stored(bytes));
    } else {
      buf := new Byte[0];
    }
  }

  lemma NotRoot(tree: Node, names: seq<string>, target: Node)
    requires tree.HostDir? && target.HostFile? && InTree(tree, names, target)
    ensures names != []
  {
  }

  lemma HeldIsFound(inodes: seq<Inode>, disk: seq<Byte>, r: Resolution, bytes: seq<Byte>)
    requires |disk| == DISK_SIZE
    ensures HoldsFile(inodes, disk, r, bytes) ==> r.Found?
  {
  }

  /** Read a file from its start into a new buffer. */
  method ReadWhole(kernel: FileSystem, r: Resolution, size: nat, ghost bytes: seq<Byte>) returns (buf: array<Byte>)
    requires kernel.Valid() && HoldsFile(kernel.inodes, kernel.fs[..], r, bytes) && |bytes| <= size
    modifies kernel.fs
    ensures fresh(buf) && buf.Length == size && buf[..|bytes|] == bytes
  {
    buf := new Byte[size];
    var moved := kernel.ReadBytes(r.idx, r.idx, 0, size, buf);
    assert bytes[0..0 + moved] == bytes;
  }

  lemma RootFollows(inodes: seq<Inode>)
    requires WellFormed(inodes)
    ensures Table(inodes) && Follow(inodes, 0, 0) == Found(0) && inodes[0].ftype == Directory
  {
  }
}
