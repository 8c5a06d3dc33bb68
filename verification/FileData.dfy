/** File contents over block maps: `fs_move_bytes` and the block bitmap (kernel/src/fs.c). */
module FileData {
  import opened FsDefs
  import opened Paths

  datatype Moved = Bytes(count: nat) | Wild

  const DISK_SIZE: nat := NUM_BLOCKS * BLOCK_SIZE

  function Min(a: nat, b: nat): (r: nat) { if a < b then a else b }

  /** Blocks a file of `size` bytes spans. */
  function Blocks(size: nat): (r: nat)
    ensures r * BLOCK_SIZE >= size > (r - 1) * BLOCK_SIZE || (r == 0 && size == 0)
  {
    (size + BLOCK_SIZE - 1) / BLOCK_SIZE
  }

  /** Every block the file spans lies in the image. */
  predicate InImage(ino: Inode) {
    && |ino.slots| == NDIRECT
    && ino.head <= FILE_MAX_SIZE
    && forall b :: 0 <= b < Blocks(ino.head) ==> ino.slots[b] < NUM_BLOCKS
  }

  /** A file whose blocks are distinct data blocks. */
  ghost predicate FileOk(ino: Inode) {
    && InImage(ino)
    && (forall b :: 0 <= b < Blocks(ino.head) ==> FIRST_DATA_BLOCK <= ino.slots[b])
    && (forall a, b :: 0 <= a < b < Blocks(ino.head) ==> ino.slots[a] != ino.slots[b])
  }

  /** Image address of byte `k` of a file. */
  function Addr(ino: Inode, k: nat): (a: nat)
    requires InImage(ino) && k < ino.head
    ensures a < DISK_SIZE
    ensures a / BLOCK_SIZE == ino.slots[k / BLOCK_SIZE]
  {
    ino.slots[k / BLOCK_SIZE] * BLOCK_SIZE + k % BLOCK_SIZE
  }

  /** The bytes a file holds. */
  ghost function Contents(disk: seq<Byte>, ino: Inode): (r: seq<Byte>)
    requires |disk| == DISK_SIZE && InImage(ino)
    ensures |r| == ino.head
    ensures forall k :: 0 <= k < ino.head ==> r[k] == disk[Addr(ino, k)]
  {
    seq(ino.head, k requires 0 <= k < ino.head => disk[Addr(ino, k)])
  }

  /** `old` with `data` written at `offset`. */
  ghost function Splice(old': seq<Byte>, offset: nat, data: seq<Byte>): (r: seq<Byte>)
    requires offset <= |old'|
  {
    old'[..offset] + data + (if offset + |data| < |old'| then old'[offset + |data|..] else [])
  }

  /** Two files that share no block. */
  ghost predicate Disjoint(a: Inode, b: Inode)
    requires InImage(a) && InImage(b)
  {
    forall i, j :: 0 <= i < Blocks(a.head) && 0 <= j < Blocks(b.head) ==> a.slots[i] != b.slots[j]
  }

  /**
   * The writes that end inside the blocks a file of `size` bytes already has: in place, or
   * growing within the last block of a file below its last possible block.
   */
  predicate Covered(size: nat, offset: nat, count: nat) {
    offset + count <= size ||
    (size <= FILE_MAX_SIZE - BLOCK_SIZE && Blocks(offset + count) <= Blocks(size))
  }

  /** The disks agree outside the blocks of `ino`. */
  ghost predicate SameOutside(disk: seq<Byte>, disk': seq<Byte>, ino: Inode)
    requires |disk| == |disk'| == DISK_SIZE && InImage(ino)
  {
    forall a :: 0 <= a < DISK_SIZE && a / BLOCK_SIZE !in ino.slots[..Blocks(ino.head)] ==> disk'[a] == disk[a]
  }

  /** A run of file bytes inside one block is a run of image bytes. */
  lemma ChunkOfContents(disk: seq<Byte>, ino: Inode, o: nat, m: nat)
    requires |disk| == DISK_SIZE && InImage(ino)
    requires 0 < m <= BLOCK_SIZE - o % BLOCK_SIZE && o + m <= ino.head
    ensures Addr(ino, o) + m <= DISK_SIZE
    ensures Contents(disk, ino)[o..o + m] == disk[Addr(ino, o)..Addr(ino, o) + m]
  {
    var c, at := Contents(disk, ino), Addr(ino, o);
    forall k | o <= k < o + m
      ensures c[k] == disk[at + (k - o)]
    {
      assert k / BLOCK_SIZE == o / BLOCK_SIZE;
    }
  }

  /** Writing a run of image bytes inside one block splices the file, and only the file. */
  lemma ChunkSplices(disk: seq<Byte>, disk': seq<Byte>, ino: Inode, o: nat, data: seq<Byte>)
    requires |disk| == |disk'| == DISK_SIZE && FileOk(ino)
    requires 0 < |data| <= BLOCK_SIZE - o % BLOCK_SIZE && o + |data| <= ino.head
    requires disk'[..Addr(ino, o)] == disk[..Addr(ino, o)]
    requires Addr(ino, o) + |data| <= DISK_SIZE
    requires disk'[Addr(ino, o)..Addr(ino, o) + |data|] == data
    requires disk'[Addr(ino, o) + |data|..] == disk[Addr(ino, o) + |data|..]
    ensures Contents(disk', ino) == Splice(Contents(disk, ino), o, data)
    ensures SameOutside(disk, disk', ino)
  {
    assert InImage(ino);
    hide FileOk, InImage, Blocks, Addr, Contents;
    OverwrittenBytes(disk, disk', Addr(ino, o), data);
    ChunkInFile(disk, disk', ino, o, data);
    ChunkInBlock(disk, disk', ino, o, data);
  }

  /** The disk with `data` at `at`. */
  ghost predicate PutAt(disk: seq<Byte>, disk': seq<Byte>, at: nat, data: seq<Byte>) {
    && |disk| == |disk'| && at + |data| <= |disk|
    && forall a :: 0 <= a < |disk| ==> disk'[a] == if at <= a < at + |data| then data[a - at] else disk[a]
  }

  lemma OverwrittenBytes(disk: seq<Byte>, disk': seq<Byte>, at: nat, data: seq<Byte>)
    requires |disk| == |disk'| && at + |data| <= |disk|
    requires disk'[..at] == disk[..at] && disk'[at..at + |data|] == data
    requires disk'[at + |data|..] == disk[at + |data|..]
    ensures PutAt(disk, disk', at, data)
  {
    forall a | 0 <= a < |disk|
      ensures disk'[a] == if at <= a < at + |data| then data[a - at] else disk[a]
    {
      if a < at {
        assert disk'[..at][a] == disk[..at][a];
      } else if a < at + |data| {
        assert disk'[at..at + |data|][a - at] == data[a - at];
      } else {
        assert disk'[at + |data|..][a - at - |data|] == disk[at + |data|..][a - at - |data|];
      }
    }
  }

  lemma ChunkInFile(disk: seq<Byte>, disk': seq<Byte>, ino: Inode, o: nat, data: seq<Byte>)
    requires |disk| == |disk'| == DISK_SIZE && FileOk(ino)
    requires 0 < |data| <= BLOCK_SIZE - o % BLOCK_SIZE && o + |data| <= ino.head
    requires PutAt(disk, disk', Addr(ino, o), data)
    ensures Contents(disk', ino) == Splice(Contents(disk, ino), o, data)
  {
    assert InImage(ino);
    hide FileOk, InImage, Blocks, Addr;
    forall k | 0 <= k < ino.head
      ensures Contents(disk', ino)[k] == Splice(Contents(disk, ino), o, data)[k]
    {
      AddrInChunk(ino, o, |data|, k);
    }
  }

  lemma ChunkInBlock(disk: seq<Byte>, disk': seq<Byte>, ino: Inode, o: nat, data: seq<Byte>)
    requires |disk| == |disk'| == DISK_SIZE && InImage(ino)
    requires 0 < |data| <= BLOCK_SIZE - o % BLOCK_SIZE && o + |data| <= ino.head
    requires PutAt(disk, disk', Addr(ino, o), data)
    ensures SameOutside(disk, disk', ino)
  {
    var at := Addr(ino, o);
    forall a | 0 <= a < DISK_SIZE && at <= a < at + |data|
      ensures a / BLOCK_SIZE in ino.slots[..Blocks(ino.head)]
    {
      assert a / BLOCK_SIZE == ino.slots[o / BLOCK_SIZE];
    }
  }

  /** With distinct blocks, byte `k` sits in the chunk's image range exactly when it is in the chunk. */
  lemma AddrInChunk(ino: Inode, o: nat, m: nat, k: nat)
    requires FileOk(ino)
    requires 0 < m <= BLOCK_SIZE - o % BLOCK_SIZE && o + m <= ino.head
    requires k < ino.head
    ensures Addr(ino, o) <= Addr(ino, k) < Addr(ino, o) + m <==> o <= k < o + m
    ensures o <= k < o + m ==> Addr(ino, k) == Addr(ino, o) + (k - o)
  {
    var i, j := o / BLOCK_SIZE, k / BLOCK_SIZE;
    if i != j {
      assert ino.slots[i] != ino.slots[j];
    }
  }

  lemma SpliceTwice(s: seq<Byte>, o: nat, a: seq<Byte>, b: seq<Byte>)
    requires o + |a| + |b| <= |s|
    ensures |Splice(s, o, a)| == |s|
    ensures Splice(Splice(s, o, a), o + |a|, b) == Splice(s, o, a + b)
  {
  }

  /** `after` is `before` with `bytes` read into it at `at`. */
  ghost predicate ReadMore(before: seq<Byte>, after: seq<Byte>, at: nat, bytes: seq<Byte>) {
    && |after| == |before| && at + |bytes| <= |after|
    && after == before[..at] + bytes + before[at + |bytes|..]
  }

  /** Only the file changed, by splicing `bytes` in at `o`. */
  ghost predicate WriteMore(disk: seq<Byte>, disk': seq<Byte>, ino: Inode, o: nat, bytes: seq<Byte>)
    requires |disk| == |disk'| == DISK_SIZE && InImage(ino) && o + |bytes| <= ino.head
  {
    && Contents(disk', ino) == Splice(Contents(disk, ino), o, bytes)
    && SameOutside(disk, disk', ino)
  }

  /**
   * What moving file bytes `o` to `o + n` through buffer position `at` does: a read fills that
   * part of the buffer, a write splices it into the file.
   */
  ghost predicate Progress(disk: seq<Byte>, disk': seq<Byte>, data: seq<Byte>, data': seq<Byte>,
                           ino: Inode, o: nat, at: nat, n: nat, isRead: bool)
    requires |disk| == |disk'| == DISK_SIZE && InImage(ino)
    requires o + n <= ino.head && at + n <= |data| == |data'|
  {
    if isRead then disk' == disk && ReadMore(data, data', at, Contents(disk, ino)[o..o + n])
    else data' == data && (FileOk(ino) ==> WriteMore(disk, disk', ino, o, data[at..at + n]))
  }

  lemma NothingMoved(disk: seq<Byte>, data: seq<Byte>, ino: Inode, o: nat, at: nat, isRead: bool)
    requires |disk| == DISK_SIZE && InImage(ino) && o <= ino.head && at <= |data|
    ensures Progress(disk, disk, data, data, ino, o, at, 0, isRead)
  {
    assert Contents(disk, ino)[o..o] == [] && data[at..at] == [];
    assert data == data[..at] + [] + data[at..];
    assert Splice(Contents(disk, ino), o, []) == Contents(disk, ino);
  }

  lemma ChunkRead(disk: seq<Byte>, disk': seq<Byte>, data: seq<Byte>, data': seq<Byte>,
                  ino: Inode, o: nat, at: nat, n: nat)
    requires |disk| == |disk'| == DISK_SIZE && InImage(ino) && o + n <= ino.head && at + n <= |data| == |data'|
    requires 0 < n && Addr(ino, o) + n <= DISK_SIZE && disk' == disk
    requires Contents(disk, ino)[o..o + n] == disk[Addr(ino, o)..Addr(ino, o) + n] == data'[at..at + n]
    requires data'[..at] == data[..at] && data'[at + n..] == data[at + n..]
    ensures Progress(disk, disk', data, data', ino, o, at, n, true)
  {
    hide InImage, Contents, Addr;
    assert data' == data'[..at] + data'[at..at + n] + data'[at + n..];
  }

  lemma ChunkWritten(disk: seq<Byte>, disk': seq<Byte>, data: seq<Byte>, data': seq<Byte>,
                     ino: Inode, o: nat, at: nat, n: nat)
    requires |disk| == |disk'| == DISK_SIZE && InImage(ino) && o + n <= ino.head && at + n <= |data| == |data'|
    requires 0 < n <= BLOCK_SIZE - o % BLOCK_SIZE && Addr(ino, o) + n <= DISK_SIZE && data' == data
    requires disk'[..Addr(ino, o)] == disk[..Addr(ino, o)] && disk'[Addr(ino, o) + n..] == disk[Addr(ino, o) + n..]
    requires disk'[Addr(ino, o)..Addr(ino, o) + n] == data[at..at + n]
    ensures Progress(disk, disk', data, data', ino, o, at, n, false)
  {
    hide FileOk, Contents, Addr, SameOutside, Splice;
    if FileOk(ino) {
      ChunkSplices(disk, disk', ino, o, data[at..at + n]);
    }
  }

  /** Moving two adjacent ranges one after the other moves both. */
  lemma ProgressThen(d0: seq<Byte>, d1: seq<Byte>, d2: seq<Byte>, b0: seq<Byte>, b1: seq<Byte>, b2: seq<Byte>,
                     ino: Inode, o: nat, t: nat, n: nat, isRead: bool)
    requires |d0| == |d1| == |d2| == DISK_SIZE && InImage(ino)
    requires o + t + n <= ino.head && t + n <= |b0| == |b1| == |b2|
    requires Progress(d0, d1, b0, b1, ino, o, 0, t, isRead)
    requires Progress(d1, d2, b1, b2, ino, o + t, t, n, isRead)
    ensures Progress(d0, d2, b0, b2, ino, o, 0, t + n, isRead)
  {
    if isRead {
      ReadThen(b0, b1, b2, Contents(d0, ino), o, t, n);
    } else if FileOk(ino) {
      WriteThen(d0, d1, d2, ino, o, b0, t, n);
    }
  }

  lemma ReadThen(b0: seq<Byte>, b1: seq<Byte>, b2: seq<Byte>, c: seq<Byte>, o: nat, t: nat, n: nat)
    requires o + t + n <= |c|
    requires ReadMore(b0, b1, 0, c[o..o + t]) && ReadMore(b1, b2, t, c[o + t..o + t + n])
    ensures ReadMore(b0, b2, 0, c[o..o + (t + n)])
  {
    assert c[o..o + (t + n)] == c[o..o + t] + c[o + t..o + t + n];
    assert b1[..t] == c[o..o + t];
    assert b1[t + n..] == b0[t + n..];
  }

  lemma WriteThen(d0: seq<Byte>, d1: seq<Byte>, d2: seq<Byte>, ino: Inode, o: nat, data: seq<Byte>, t: nat, n: nat)
    requires |d0| == |d1| == |d2| == DISK_SIZE && InImage(ino)
    requires t + n <= |data| && o + t + n <= ino.head
    requires WriteMore(d0, d1, ino, o, data[0..t]) && WriteMore(d1, d2, ino, o + t, data[t..t + n])
    ensures WriteMore(d0, d2, ino, o, data[0..t + n])
  {
    SpliceTwice(Contents(d0, ino), o, data[0..t], data[t..t + n]);
    assert data[0..t] + data[t..t + n] == data[0..t + n];
  }

  /** Files that share no block with the written one keep their bytes. */
  lemma OtherContentsKept(disk: seq<Byte>, disk': seq<Byte>, ino: Inode, other: Inode)
    requires |disk| == |disk'| == DISK_SIZE && InImage(ino) && InImage(other)
    requires SameOutside(disk, disk', ino) && Disjoint(ino, other)
    ensures Contents(disk', other) == Contents(disk, other)
  {
    forall k | 0 <= k < other.head
      ensures Contents(disk', other)[k] == Contents(disk, other)[k]
    {
      var b := other.slots[k / BLOCK_SIZE];
      assert Addr(other, k) / BLOCK_SIZE == b;
      assert b !in ino.slots[..Blocks(ino.head)];
    }
  }

  /** The slot after a file's last block, when there is one, does not name a data block. */
  ghost predicate StaleSlot(ino: Inode) {
    Blocks(ino.head) < |ino.slots| ==> ino.slots[Blocks(ino.head)] < FIRST_DATA_BLOCK
  }

  // ------------------------------------------------------------------ growing

  /** The lowest free block from `i` on, or the largest u32 when none is left. */
  function LowestFree(bits: seq<bool>, i: nat): (b: nat)
    requires i <= |bits|
    ensures b < |bits| < U32 ==> i <= b && !bits[b]
    decreases |bits| - i
  {
    if i == |bits| then U32 - 1 else if !bits[i] then i else LowestFree(bits, i + 1)
  }

  function Marked(bits: seq<bool>, b: nat): (r: seq<bool>)
    ensures |r| == |bits|
  {
    if b < |bits| then bits[b := true] else bits
  }

  /** The bitmap after `k` calls of `alloc_block`, and what they returned. */
  function BitsAfter(bits: seq<bool>, k: nat): (r: seq<bool>)
    ensures |r| == |bits|
  {
    if k == 0 then bits else Marked(BitsAfter(bits, k - 1), LowestFree(BitsAfter(bits, k - 1), 0))
  }

  function Allots(bits: seq<bool>, k: nat): (r: seq<nat>)
    ensures |r| == k
  {
    if k == 0 then [] else Allots(bits, k - 1) + [LowestFree(BitsAfter(bits, k - 1), 0)]
  }

  /** Blocks that are allotted were free, are marked afterwards, and differ from each other. */
  ghost predicate AllottedOk(bits: seq<bool>, after: seq<bool>, allots: seq<nat>) {
    && |after| == |bits|
    && (forall b :: 0 <= b < |bits| ==> (after[b] <==> bits[b] || b in allots))
    && (forall j :: 0 <= j < |allots| && allots[j] < |bits| ==> !bits[allots[j]])
    && (forall i, j :: 0 <= i < j < |allots| && allots[j] < |bits| ==> allots[i] != allots[j])
  }

  lemma {:induction false} AllotsFree(bits: seq<bool>, k: nat)
    requires |bits| < U32
    ensures AllottedOk(bits, BitsAfter(bits, k), Allots(bits, k))
  {
    hide AllottedOk, LowestFree, Marked;
    if k > 0 {
      AllotsFree(bits, k - 1);
      OneAllotted(bits, BitsAfter(bits, k - 1), Allots(bits, k - 1));
    } else {
      NoneAllotted(bits);
    }
  }

  lemma NoneAllotted(bits: seq<bool>)
    ensures AllottedOk(bits, bits, [])
  {
  }

  /** One more block, free after the others, keeps all this. */
  lemma OneAllotted(bits: seq<bool>, after: seq<bool>, allots: seq<nat>)
    requires AllottedOk(bits, after, allots) && |bits| < U32
    ensures var b := LowestFree(after, 0); AllottedOk(bits, Marked(after, b), allots + [b])
  {
    hide LowestFree;
    var b := LowestFree(after, 0);
    if b < |bits| {
      assert !after[b];
      assert !bits[b] && b !in allots;
    }
  }

  /** Blocks that a file of `size` bytes gets when it grows to `end`: none for the first one it lacks. */
  function NewBlocks(size: nat, end: nat): (k: nat) {
    if Blocks(end) > Blocks(size) + 1 then Blocks(end) - Blocks(size) - 1 else 0
  }

  /**
   * The inode after a write up to `end`.  Allocation starts one block past the first missing
   * one, so a file that outgrows its last block takes the slot of that block as it is.
   */
  function Grown(ino: Inode, bits: seq<bool>, end: nat): (r: Inode)
    requires |ino.slots| == NDIRECT && end <= FILE_MAX_SIZE
    ensures |r.slots| == NDIRECT
  {
    var n, k := Blocks(ino.head), NewBlocks(ino.head, end);
    if end <= ino.head then ino
    else ino.(head := end, slots := if n == NDIRECT then ino.slots else SlotsWith(ino, bits, k))
  }

  predicate IsData(b: nat) {
    FIRST_DATA_BLOCK <= b < NUM_BLOCKS
  }

  /**
   * When a file may outgrow its blocks: it is below its last possible block and stays within the
   * maximum, the slot after its last block already names a data block of its own, and so do the
   * blocks that will be allotted after it.
   */
  ghost predicate Extends(ino: Inode, bits: seq<bool>, end: nat) {
    var n, k := Blocks(ino.head), NewBlocks(ino.head, end);
    && ino.head <= FILE_MAX_SIZE - BLOCK_SIZE && end <= FILE_MAX_SIZE && n < |ino.slots| && n < Blocks(end)
    && IsData(ino.slots[n]) && ino.slots[n] !in ino.slots[..n]
    && forall j :: 0 <= j < k ==> IsData(Allots(bits, k)[j]) && Allots(bits, k)[j] !in ino.slots[..n + 1]
  }

  /**
   * Once the bitmap marks the blocks of the file and those before the data, only two things
   * matter: the slot after the last block, and that enough blocks are free.
   */
  lemma ExtendsIff(ino: Inode, bits: seq<bool>, end: nat)
    requires FileOk(ino) && |bits| == NUM_BLOCKS && end <= FILE_MAX_SIZE && ino.head <= FILE_MAX_SIZE - BLOCK_SIZE
    requires Blocks(ino.head) < Blocks(end)
    requires forall b :: 0 <= b < FIRST_DATA_BLOCK ==> bits[b]
    requires forall b :: 0 <= b <= Blocks(ino.head) && ino.slots[b] < NUM_BLOCKS ==> bits[ino.slots[b]]
    ensures var n, k := Blocks(ino.head), NewBlocks(ino.head, end);
            Extends(ino, bits, end) <==>
            && IsData(ino.slots[n]) && ino.slots[n] !in ino.slots[..n]
            && forall j :: 0 <= j < k ==> Allots(bits, k)[j] < NUM_BLOCKS
  {
    hide Allots, BitsAfter;
    var n, k := Blocks(ino.head), NewBlocks(ino.head, end);
    AllotsFree(bits, k);
    BlocksMonotone(ino.head, FILE_MAX_SIZE - BLOCK_SIZE);
    hide Blocks, NewBlocks, FileOk;
    forall j | 0 <= j < k && Allots(bits, k)[j] < NUM_BLOCKS
      ensures IsData(Allots(bits, k)[j]) && Allots(bits, k)[j] !in ino.slots[..n + 1]
    {
      assert !bits[Allots(bits, k)[j]];
    }
  }

  /** A grown file is a well-formed file exactly when it could extend. */
  lemma GrownOk(ino: Inode, bits: seq<bool>, end: nat)
    requires FileOk(ino) && |bits| == NUM_BLOCKS && end <= FILE_MAX_SIZE && ino.head <= FILE_MAX_SIZE - BLOCK_SIZE
    requires Blocks(ino.head) < Blocks(end)
    ensures FileOk(Grown(ino, bits, end)) <==> Extends(ino, bits, end)
  {
    assert |ino.slots| == NDIRECT;
    hide Allots, BitsAfter, Blocks, Grown, Extends, FileOk;
    if FileOk(Grown(ino, bits, end)) {
      GrownExtends(ino, bits, end);
    }
    if Extends(ino, bits, end) {
      ExtendedOk(ino, bits, end);
    }
  }

  lemma GrownExtends(ino: Inode, bits: seq<bool>, end: nat)
    requires |ino.slots| == NDIRECT && end <= FILE_MAX_SIZE && ino.head <= FILE_MAX_SIZE - BLOCK_SIZE
    requires Blocks(ino.head) < Blocks(end) && FileOk(Grown(ino, bits, end))
    ensures Extends(ino, bits, end)
  {
    hide Allots, Blocks, Grown;
    var n, k, r := Blocks(ino.head), NewBlocks(ino.head, end), Grown(ino, bits, end);
    GrownSlots(ino, bits, end);
    assert r.slots[n] == ino.slots[n];
    forall j | 0 <= j < k
      ensures IsData(Allots(bits, k)[j]) && Allots(bits, k)[j] !in ino.slots[..n + 1]
    {
      assert r.slots[n + 1 + j] == Allots(bits, k)[j];
    }
  }

  lemma ExtendedOk(ino: Inode, bits: seq<bool>, end: nat)
    requires FileOk(ino) && |bits| == NUM_BLOCKS && end <= FILE_MAX_SIZE
    requires Blocks(ino.head) < Blocks(end) && Extends(ino, bits, end)
    ensures FileOk(Grown(ino, bits, end))
  {
    hide Allots, BitsAfter, Blocks, Grown;
    var n, k, r := Blocks(ino.head), NewBlocks(ino.head, end), Grown(ino, bits, end);
    AllotsFree(bits, k);
    GrownSlots(ino, bits, end);
    forall b | 0 <= b < Blocks(end) ensures IsData(r.slots[b]) {
      if b > n {
        assert IsData(Allots(bits, k)[b - n - 1]);
      }
    }
    forall a, b | 0 <= a < b < Blocks(end) ensures r.slots[a] != r.slots[b] {
      if b > n && a <= n {
        assert ino.slots[..n + 1][a] == ino.slots[a] && Allots(bits, k)[b - n - 1] !in ino.slots[..n + 1];
      }
    }
  }

  /** The slots once `k` blocks have been allotted. */
  function SlotsWith(ino: Inode, bits: seq<bool>, k: nat): (r: seq<nat>)
    requires |ino.slots| == NDIRECT && Blocks(ino.head) + 1 + k <= NDIRECT
    ensures |r| == NDIRECT
  {
    var n := Blocks(ino.head);
    ino.slots[..n + 1] + Allots(bits, k) + ino.slots[n + 1 + k..]
  }

  lemma GrownIs(ino: Inode, bits: seq<bool>, end: nat)
    requires |ino.slots| == NDIRECT && ino.head < end <= FILE_MAX_SIZE && Blocks(ino.head) < NDIRECT
    ensures Blocks(ino.head) + 1 + NewBlocks(ino.head, end) <= NDIRECT
    ensures Grown(ino, bits, end) == ino.(head := end, slots := SlotsWith(ino, bits, NewBlocks(ino.head, end)))
  {
    hide SlotsWith;
  }

  lemma BlocksFit(size: nat, end: nat)
    requires size <= FILE_MAX_SIZE - BLOCK_SIZE
    ensures Blocks(size) < NDIRECT && (end <= FILE_MAX_SIZE <==> Blocks(end) <= NDIRECT)
  {
  }

  lemma NothingAllotted(ino: Inode, bits: seq<bool>)
    requires |ino.slots| == NDIRECT && Blocks(ino.head) < NDIRECT
    ensures SlotsWith(ino, bits, 0) == ino.slots && BitsAfter(bits, 0) == bits
  {
  }

  lemma OneMore(ino: Inode, bits: seq<bool>, k: nat)
    requires |ino.slots| == NDIRECT && Blocks(ino.head) + 2 + k <= NDIRECT
    ensures var b := LowestFree(BitsAfter(bits, k), 0);
            && SlotsWith(ino, bits, k + 1) == SlotsWith(ino, bits, k)[Blocks(ino.head) + 1 + k := b]
            && BitsAfter(bits, k + 1) == Marked(BitsAfter(bits, k), b)
  {
    hide LowestFree;
  }

  lemma GrownSlots(ino: Inode, bits: seq<bool>, end: nat)
    requires |ino.slots| == NDIRECT && Blocks(ino.head) < Blocks(end) && end <= FILE_MAX_SIZE
    ensures var n, k, r := Blocks(ino.head), NewBlocks(ino.head, end), Grown(ino, bits, end);
            && n < NDIRECT && n + 1 + k == Blocks(end) <= NDIRECT && r.head == end
            && (forall a :: 0 <= a <= n ==> r.slots[a] == ino.slots[a])
            && (forall a :: n < a < Blocks(end) ==> r.slots[a] == Allots(bits, k)[a - n - 1])
  {
    hide Allots;
  }

  /** The inode after a write up to `end`. */
  function Written(ino: Inode, end: nat): (r: Inode) {
    if end > ino.head then ino.(head := end) else ino
  }

  /** The file became a splice of what it was, and nothing outside it changed. */
  ghost predicate Spliced(disk: seq<Byte>, disk': seq<Byte>, ino: Inode, ino': Inode, o: nat, data: seq<Byte>)
    requires |disk| == |disk'| == DISK_SIZE && InImage(ino) && o <= ino.head
  {
    && FileOk(ino')
    && Contents(disk', ino') == Splice(Contents(disk, ino), o, data)
    && SameOutside(disk, disk', ino')
  }

  ghost predicate ExactFor(ino: Inode, bits: seq<bool>, offset: nat, count: nat) {
    Covered(ino.head, offset, count) || Extends(ino, bits, offset + count)
  }

  /** A write past the maximum, or past the end of a file in its last possible block, is never exact. */
  lemma NeverExact(ino: Inode, bits: seq<bool>, offset: nat, count: nat)
    requires FileOk(ino) && offset + count > ino.head
    requires ino.head > FILE_MAX_SIZE - BLOCK_SIZE || offset + count > FILE_MAX_SIZE
    ensures !ExactFor(ino, bits, offset, count)
  {
    hide FileOk, Allots;
    BlocksMonotone(ino.head, FILE_MAX_SIZE - BLOCK_SIZE);
  }

  lemma BlocksMonotone(a: nat, b: nat)
    ensures a <= b ==> Blocks(a) <= Blocks(b)
    ensures Blocks(FILE_MAX_SIZE - BLOCK_SIZE) == NDIRECT - 1
    ensures a > FILE_MAX_SIZE ==> Blocks(a) > NDIRECT
  {
  }

  /** Any other write is exact exactly when it leaves a well-formed file. */
  lemma ExactGrown(ino: Inode, bits: seq<bool>, offset: nat, count: nat)
    requires FileOk(ino) && |bits| == NUM_BLOCKS && offset <= ino.head && offset + count <= FILE_MAX_SIZE
    requires offset + count > ino.head ==> ino.head <= FILE_MAX_SIZE - BLOCK_SIZE
    ensures FileOk(Grown(ino, bits, offset + count)) <==> ExactFor(ino, bits, offset, count)
  {
    hide Allots, BitsAfter, Blocks, SlotsWith, IsData;
    var end := offset + count;
    if end > ino.head {
      if Blocks(ino.head) < Blocks(end) {
        GrownOk(ino, bits, end);
      } else {
        GrownInPlace(ino, bits, end);
      }
    }
  }

  /** Growing inside the last block changes only the size. */
  lemma GrownInPlace(ino: Inode, bits: seq<bool>, end: nat)
    requires FileOk(ino) && end <= FILE_MAX_SIZE && Blocks(end) <= Blocks(ino.head)
    ensures NewBlocks(ino.head, end) == 0 && BitsAfter(bits, 0) == bits && Grown(ino, bits, end) == Written(ino, end)
    ensures FileOk(Written(ino, end))
  {
    if Blocks(ino.head) < NDIRECT {
      NothingAllotted(ino, bits);
    }
    hide BitsAfter, Allots, SlotsWith;
    if end > ino.head {
      BlocksMonotone(ino.head, end);
    }
  }

  lemma CoveredBlocks(size: nat, offset: nat, count: nat)
    requires Covered(size, offset, count)
    ensures Blocks(offset + count) <= Blocks(size)
  {
    BlocksMonotone(offset + count, size);
  }

  /** A slot that names no data block stops every growth past the last block. */
  lemma StaleNeverExtends(ino: Inode, bits: seq<bool>, offset: nat, count: nat)
    requires StaleSlot(ino)
    ensures ExactFor(ino, bits, offset, count) <==> Covered(ino.head, offset, count)
  {
    hide Allots, Blocks;
  }

  lemma GrownFront(ino: Inode, bits: seq<bool>, end: nat)
    requires |ino.slots| == NDIRECT && ino.head <= FILE_MAX_SIZE && end <= FILE_MAX_SIZE
    ensures var r := Grown(ino, bits, end);
            && r.head == (if end > ino.head then end else ino.head)
            && forall b :: 0 <= b < Blocks(ino.head) ==> r.slots[b] == ino.slots[b]
  {
    hide Allots;
  }

  /** All of this, by the end of the write. */
  lemma WriteCases(ino: Inode, bits: seq<bool>, offset: nat, count: nat)
    requires FileOk(ino) && |bits| == NUM_BLOCKS && offset <= ino.head
    ensures InImage(ino) && (StaleSlot(ino) ==>
              (ExactFor(ino, bits, offset, count) <==> Covered(ino.head, offset, count)))
    ensures var end := offset + count;
            if end > ino.head && (ino.head > FILE_MAX_SIZE - BLOCK_SIZE || end > FILE_MAX_SIZE)
            then !ExactFor(ino, bits, offset, count) && !Covered(ino.head, offset, count)
            else
              && end <= FILE_MAX_SIZE
              && (FileOk(Grown(ino, bits, end)) <==> ExactFor(ino, bits, offset, count))
              && (FileOk(Grown(ino, bits, end)) ==> InImage(Grown(ino, bits, end)))
              && Grown(ino, bits, end).head == (if end > ino.head then end else ino.head)
              && (Covered(ino.head, offset, count) ==>
                    Grown(ino, bits, end) == Written(ino, end) && BitsAfter(bits, NewBlocks(ino.head, end)) == bits)
  {
    hide Grown, StaleSlot, BitsAfter, NewBlocks, Covered, Blocks, Extends;
    var end := offset + count;
    if StaleSlot(ino) {
      StaleNeverExtends(ino, bits, offset, count);
    }
    if end > ino.head && (ino.head > FILE_MAX_SIZE - BLOCK_SIZE || end > FILE_MAX_SIZE) {
      NeverExact(ino, bits, offset, count);
    } else {
      ExactGrown(ino, bits, offset, count);
      GrownFront(ino, bits, end);
      if Covered(ino.head, offset, count) {
        CoveredBlocks(ino.head, offset, count);
        GrownInPlace(ino, bits, end);
      }
    }
  }

  /** A write leaves the buffer alone. */
  lemma MovedBuffer(disk: seq<Byte>, disk': seq<Byte>, data: seq<Byte>, data': seq<Byte>, ino: Inode, o: nat, n: nat)
    requires |disk| == |disk'| == DISK_SIZE && InImage(ino) && o + n <= ino.head && n <= |data| == |data'|
    requires Progress(disk, disk', data, data', ino, o, 0, n, false)
    ensures data' == data
  {
  }

  lemma WrittenSpliced(disk: seq<Byte>, disk': seq<Byte>, ino: Inode, ino': Inode, o: nat, data: seq<Byte>, count: nat)
    requires |disk| == |disk'| == DISK_SIZE && FileOk(ino) && o <= ino.head && count <= |data|
    requires FileOk(ino') && ino'.head == (if o + count > ino.head then o + count else ino.head)
    requires forall b :: 0 <= b < Blocks(ino.head) ==> ino'.slots[b] == ino.slots[b]
    requires Progress(disk, disk', data, data, ino', o, 0, count, false)
    ensures Spliced(disk, disk', ino, ino', o, data[..count])
  {
    assert data[0..count] == data[..count];
    GrownContents(disk, ino, ino', o, data[..count]);
  }

  /** A splice that reaches past the end reads the same over the file before and after it grew. */
  lemma GrownContents(disk: seq<Byte>, ino: Inode, grown: Inode, o: nat, data: seq<Byte>)
    requires |disk| == DISK_SIZE && InImage(ino) && InImage(grown)
    requires o <= ino.head && grown.head == (if o + |data| > ino.head then o + |data| else ino.head)
    requires forall b :: 0 <= b < Blocks(ino.head) ==> grown.slots[b] == ino.slots[b]
    ensures Splice(Contents(disk, grown), o, data) == Splice(Contents(disk, ino), o, data)
  {
    assert forall k :: 0 <= k < ino.head ==> Contents(disk, grown)[k] == Contents(disk, ino)[k];
    assert Contents(disk, grown)[..o] == Contents(disk, ino)[..o];
  }

  class FileSystem {
    const fs: array<Byte>
    const bitmap: array<bool>
    var inodes: seq<Inode>

    ghost predicate Valid()
      reads this
    {
      fs.Length == DISK_SIZE && bitmap.Length == NUM_BLOCKS && Table(inodes)
    }

    constructor (image: array<Byte>, used: array<bool>, table: seq<Inode>)
      requires image.Length == DISK_SIZE && used.Length == NUM_BLOCKS && Table(table)
      ensures Valid() && fs == image && bitmap == used && inodes == table
    {
      fs, bitmap, inodes := image, used, table;
    }

    /** `alloc_block`: the lowest free block, or the largest u32 when none is left. */
    method AllocBlock() returns (b: nat)
      requires Valid()
      modifies bitmap
      ensures b == LowestFree(old(bitmap[..]), 0) && bitmap[..] == Marked(old(bitmap[..]), b)
      ensures b < NUM_BLOCKS ==> !old(bitmap[b]) && forall i :: 0 <= i < b ==> old(bitmap[i])
      ensures b >= NUM_BLOCKS ==> b == U32 - 1 && forall i :: 0 <= i < NUM_BLOCKS ==> bitmap[i]
    {
      for i := 0 to NUM_BLOCKS
        invariant bitmap[..] == old(bitmap[..]) && LowestFree(bitmap[..], 0) == LowestFree(bitmap[..], i)
        invariant forall j :: 0 <= j < i ==> bitmap[j]
      {
        if !bitmap[i] {
          bitmap[i] := true;
          return i;
        }
      }
      b := U32 - 1;
    }

    /**
     * `free_block` tests the bit the wrong way round: it reports failure on a used block and
     * clears only bits that are clear, so it never changes the bitmap.
     */
    method FreeBlock(b: nat) returns (ok: bool)
      requires Valid() && b < NUM_BLOCKS
      modifies bitmap
      ensures bitmap[..] == old(bitmap[..])
      ensures ok <==> !old(bitmap[b])
    {
      if bitmap[b] {
        ok := false;
      } else {
        bitmap[b] := false;
        ok := true;
      }
    }

    /** `memcpy` between a block and the caller's buffer, in the direction of the transfer. */
    method Transfer(addr: nat, buf: array<Byte>, at: nat, n: nat, isRead: bool)
      requires addr + n <= fs.Length && at + n <= buf.Length && buf != fs
      modifies fs, buf
      ensures isRead ==> fs[..] == old(fs[..]) && buf[..at] == old(buf[..at]) && buf[at + n..] == old(buf[at + n..])
      ensures !isRead ==>
                buf[..] == old(buf[..]) && fs[..addr] == old(fs[..addr]) && fs[addr + n..] == old(fs[addr + n..])
      ensures fs[addr..addr + n] == buf[at..at + n]
    {
      for i := 0 to n
        invariant isRead ==> fs[..] == old(fs[..]) && buf[..at] == old(buf[..at]) && buf[at + n..] == old(buf[at + n..])
        invariant !isRead ==>
                    buf[..] == old(buf[..]) && fs[..addr] == old(fs[..addr]) && fs[addr + n..] == old(fs[addr + n..])
        invariant fs[addr..addr + i] == buf[at..at + i]
      {
        if isRead {
          buf[at + i] := fs[addr + i];
        } else {
          fs[addr + i] := buf[at + i];
        }
      }
    }

    /** One `memcpy` of the transfer: `n` bytes inside one block, from file offset `o`. */
    method MoveChunk(ino: Inode, o: nat, buf: array<Byte>, at: nat, n: nat, isRead: bool)
      requires fs.Length == DISK_SIZE && InImage(ino) && buf != fs
      requires n > 0 ==> n <= BLOCK_SIZE - o % BLOCK_SIZE
      requires o + n <= ino.head && at + n <= buf.Length
      modifies fs, buf
      ensures Progress(old(fs[..]), fs[..], old(buf[..]), buf[..], ino, o, at, n, isRead)
    {
      hide FileOk, InImage, Contents, Blocks, SameOutside, Splice, Progress;
      ghost var disk, data := fs[..], buf[..];
      if n > 0 {
        ChunkOfContents(disk, ino, o, n);
        hide Addr;
        Transfer(Addr(ino, o), buf, at, n, isRead);
        if isRead {
          ChunkRead(disk, fs[..], data, buf[..], ino, o, at, n);
        } else {
          ChunkWritten(disk, fs[..], data, buf[..], ino, o, at, n);
        }
      } else {
        NothingMoved(disk, data, ino, o, at, isRead);
      }
    }

    /** Lines 214-265: move the bytes block by block, never past the end of the file. */
    method MoveRange(ino: Inode, offset0: nat, size0: nat, buf: array<Byte>, isRead: bool) returns (total: nat)
      requires fs.Length == DISK_SIZE && InImage(ino) && buf != fs
      requires offset0 <= ino.head && size0 <= buf.Length
      modifies fs, buf
      ensures total == Min(size0, ino.head - offset0)
      ensures Progress(old(fs[..]), fs[..], old(buf[..]), buf[..], ino, offset0, 0, total, isRead)
    {
      hide InImage, Progress;
      ghost var disk, data := fs[..], buf[..];
      var size := size0;
      var first := Min(Min(size, BLOCK_SIZE - offset0 % BLOCK_SIZE), ino.head - offset0);
      MoveChunk(ino, offset0, buf, 0, first, isRead);
      size := size - first;
      var offset := offset0 + first;
      total := first;
      while true
        invariant 0 <= size && 0 <= total && size + total <= size0
        invariant offset == offset0 + total <= ino.head
        invariant size + total == size0 || offset == ino.head
        invariant size > 0 ==> offset % BLOCK_SIZE == 0 || offset == ino.head
        invariant Progress(disk, fs[..], data, buf[..], ino, offset0, 0, total, isRead)
        decreases size
      {
        var n := Min(Min(size, BLOCK_SIZE), ino.head - offset);
        ghost var disk1, data1 := fs[..], buf[..];
        MoveChunk(ino, offset, buf, total, n, isRead);
        ProgressThen(disk, disk1, fs[..], data, data1, buf[..], ino, offset0, total, n, isRead);
        offset := offset + n;
        total := total + n;
        if size < BLOCK_SIZE {
          break;
        }
        size := size - BLOCK_SIZE;
      }
    }

    /**
     * Lines 194-213: what a write does to the inode before it moves bytes.  Growing in the last
     * possible block is refused, and an end beyond the maximum runs off the slots.
     */
    method Grow(t: nat, offset: nat, count: nat) returns (ok: bool, size: nat)
      requires Valid() && t < NUM_INODES && offset <= inodes[t].head <= FILE_MAX_SIZE
      requires offset + count < U32
      modifies this, bitmap
      ensures Valid() && Table(old(inodes))
      ensures forall i :: 0 <= i < NUM_INODES && i != t ==> inodes[i] == old(inodes)[i]
      ensures
        var old' := old(inodes)[t];
        var end := offset + count;
        if end > old'.head > FILE_MAX_SIZE - BLOCK_SIZE then
          ok && inodes == old(inodes) && bitmap[..] == old(bitmap[..])
          && size == if end > FILE_MAX_SIZE then old'.head - offset else count
        else if end > FILE_MAX_SIZE then !ok
        else
          && ok && size == count && inodes == old(inodes)[t := Grown(old', old(bitmap[..]), end)]
          && bitmap[..] == if end <= old'.head then old(bitmap[..])
                           else BitsAfter(old(bitmap[..]), NewBlocks(old'.head, end))
    {
      hide BitsAfter, NewBlocks, SlotsWith, Blocks;
      ok, size := true, count;
      var n := inodes[t].head;
      var end := offset + count;
      if end > n {
        if end > FILE_MAX_SIZE {
          size := n - offset;
        }
        if n <= FILE_MAX_SIZE - BLOCK_SIZE {
          ok := AddBlocks(t, end);
          inodes := inodes[t := inodes[t].(head := end)];
        }
      }
    }

    /** The allocation loop. */
    method AddBlocks(t: nat, end: nat) returns (ok: bool)
      requires Valid() && t < NUM_INODES && inodes[t].head <= FILE_MAX_SIZE - BLOCK_SIZE && inodes[t].head < end < U32
      modifies this, bitmap
      ensures Valid() && inodes == old(inodes)[t := inodes[t]]
      ensures ok <==> end <= FILE_MAX_SIZE
      ensures ok ==> inodes[t] == Grown(old(inodes)[t], old(bitmap[..]), end).(head := old(inodes)[t].head)
      ensures ok ==> bitmap[..] == BitsAfter(old(bitmap[..]), NewBlocks(old(inodes)[t].head, end))
    {
      hide Allots, BitsAfter, Blocks, SlotsWith, Grown, LowestFree, Marked;
      var n := Blocks(inodes[t].head);
      var missing := n + 1;
      var final := Blocks(end);
      ghost var ino, bits := inodes[t], bitmap[..];
      BlocksFit(ino.head, end);
      NothingAllotted(ino, bits);
      if end <= FILE_MAX_SIZE {
        GrownIs(ino, bits, end);
      }
      while missing < final
        invariant n < missing <= NDIRECT && (missing <= final || missing == n + 1)
        invariant Valid() && inodes == old(inodes)[t := ino.(slots := SlotsWith(ino, bits, missing - n - 1))]
        invariant bitmap[..] == BitsAfter(bits, missing - n - 1)
      {
        if missing >= NDIRECT {
          return false;
        }
        var b := AllocBlock();
        OneMore(ino, bits, missing - n - 1);
        inodes := inodes[t := inodes[t].(slots := inodes[t].slots[missing := b])];
        missing := missing + 1;
      }
      ok := true;
    }

    /** `fs_read_bytes`: the bytes of the file from `offset` on, as many as there are. */
    method ReadBytes(i: nat, ghost t: nat, offset: nat, count: nat, buf: array<Byte>) returns (moved: nat)
      requires Valid() && Follow(inodes, i, 0) == Found(t)
      requires inodes[t].ftype == File && InImage(inodes[t]) && offset <= inodes[t].head
      requires count <= buf.Length && buf != fs
      modifies fs, buf
      ensures fs[..] == old(fs[..]) && moved == Min(count, inodes[t].head - offset)
      ensures ReadMore(old(buf[..]), buf[..], 0, Contents(fs[..], inodes[t])[offset..offset + moved])
    {
      var f := FollowSymlink(inodes, i);
      moved := MoveRange(inodes[f.idx], offset, count, buf, true);
    }

    /**
     * `fs_write_bytes`.  The write is exact (all bytes written, the file still a well-formed
     * file) if and only if it is `Covered` by the blocks of the file or the file `Extends` that
     * far; an exact write is a splice that touches nothing outside the file.
     */
    method WriteBytes(i: nat, ghost t: nat, offset: nat, count: nat, buf: array<Byte>) returns (r: Moved)
      requires Valid() && Follow(inodes, i, 0) == Found(t)
      requires inodes[t].ftype == File && FileOk(inodes[t]) && offset <= inodes[t].head
      requires count <= buf.Length && offset + count < U32 && buf != fs
      modifies this, bitmap, fs, buf
      ensures Valid() && buf[..] == old(buf[..])
      ensures r == Bytes(count) && FileOk(inodes[t]) <==> ExactFor(old(inodes)[t], old(bitmap[..]), offset, count)
      ensures ExactFor(old(inodes)[t], old(bitmap[..]), offset, count) ==>
        && inodes == old(inodes)[t := Grown(old(inodes)[t], old(bitmap[..]), offset + count)]
        && Spliced(old(fs[..]), fs[..], old(inodes[t]), inodes[t], offset, buf[..count])
      ensures Covered(old(inodes[t].head), offset, count) ==>
        inodes == old(inodes)[t := Written(old(inodes)[t], offset + count)] && bitmap[..] == old(bitmap[..])
      ensures StaleSlot(old(inodes)[t]) ==>
        (ExactFor(old(inodes)[t], old(bitmap[..]), offset, count) <==> Covered(old(inodes[t].head), offset, count))
    {
      hide Progress, Spliced, Grown, ExactFor, StaleSlot, BitsAfter, NewBlocks, Covered, FileOk, Blocks;
      var f := FollowSymlink(inodes, i);
      ghost var ino, bits, end := inodes[t], bitmap[..], offset + count;
      WriteCases(ino, bits, offset, count);
      var ok, size := Grow(f.idx, offset, count);
      if !ok || !InImage(inodes[f.idx]) {
        return Wild;
      }
      var total := MoveRange(inodes[f.idx], offset, size, buf, false);
      MovedBuffer(old(fs[..]), fs[..], old(buf[..]), buf[..], inodes[t], offset, total);
      r := Bytes(total);
      if ExactFor(ino, bits, offset, count) {
        GrownFront(ino, bits, end);
        WrittenSpliced(old(fs[..]), fs[..], ino, inodes[t], offset, buf[..], count);
      }
    }
  }
}
