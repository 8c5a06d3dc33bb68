/** The on-image data of the Foxtail filesystem (kernel/include/fs_defs.h). */
module FsDefs {
  const NDIRECT: nat := 21
  const BLOCK_SIZE: nat := 4096
  const NUM_BLOCKS: nat := 128
  const NUM_INODE_BLOCKS: nat := 8
  const NUM_BITMAP_BLOCKS: nat := 1
  const FIRST_DATA_BLOCK: nat := NUM_BITMAP_BLOCKS + NUM_INODE_BLOCKS
  // NUM_INODE_BLOCKS * BLOCK_SIZE / sizeof(struct inode), with 128-byte inodes
  const NUM_INODES: nat := 256
  const FILE_MAX_SIZE: nat := NDIRECT * BLOCK_SIZE
  const DIR_MAX_ENTRIES: nat := NDIRECT
  const FILENAME_MAX_LEN: nat := 28
  const SYMLINK_RECURSION_LIMIT: nat := 10
  const FS_ROOT_PATH: string := "~"
  const U16: nat := 0x1_0000
  const U32: nat := 0x1_0000_0000

  newtype Byte = x: int | 0 <= x < 256

  datatype FileType = Unallocated | File | Directory | Symlink

  /**
   * One inode.  The C union keeps three views of the same 22 words: `head` is the first
   * word (a file's size, a directory's entry count or a symlink's target) and `slots` are
   * the other 21 (a file's blocks or a directory's entries).
   */
  datatype Inode = Inode(name: string, ftype: FileType, parent: nat,
                         head: nat, slots: seq<nat>, valid: bool, refs: nat)

  /** The inode of an all-zero image. */
  const ZERO_INODE := Inode("", Unallocated, 0, 0, seq(NDIRECT, _ => 0), false, 0)

  /** What an inode pointer can turn out to be: a table entry, null, or neither. */
  datatype Resolution = Found(idx: nat) | Missing | Fault

  /** Every inode has its 21 slots, and there are as many inodes as the image holds. */
  ghost predicate Table(inodes: seq<Inode>) {
    && |inodes| == NUM_INODES
    && forall i :: 0 <= i < NUM_INODES ==> |inodes[i].slots| == NDIRECT
  }

  /** The inodes a directory lists. */
  function Entries(d: Inode): (r: seq<nat>)
    requires d.head <= |d.slots|
    ensures |r| == d.head
  {
    d.slots[..d.head]
  }
}
