/*
 * The in-memory records of the kernel tables: `struct m_inode`,
 * `struct super_block` and `struct file` of include/linux/fs.h, and
 * `struct task_struct` of include/linux/sched.h.
 *
 * A pointer into one of the tables becomes the slot index, and a NULL
 * pointer the index NONE.
 */
module Records {
  import opened Layout

  const NONE: int := -1

  /** `struct m_inode`: the disk record followed by the in-memory fields. */
  datatype MInode = MInode(d: DInode, atime: int, ctime: int, dev: int, num: int,
                           count: nat, dirt: bool, pipe: bool, mount: bool)
  {
    ghost predicate Valid() { d.Valid() }
  }

  const ZERO_DINODE: DInode := DInode(0, 0, 0, 0, 0, 0, [0, 0, 0, 0, 0, 0, 0, 0, 0])

  /** An inode slot after `memset(inode, 0, sizeof(*inode))`. */
  const ZERO_INODE: MInode := MInode(ZERO_DINODE, 0, 0, 0, 0, 0, false, false, false)

  /**
   * `struct super_block`: the disk record and, in memory, the contents of
   * the pinned inode- and zone-bitmap buffers with their dirty bits.
   */
  datatype Super = Super(d: DSuper, inodeMap: seq<seq<byte>>, zoneMap: seq<seq<byte>>,
                         inodeMapDirt: seq<bool>, zoneMapDirt: seq<bool>, dev: int,
                         isup: int, imount: int, time: int, rdOnly: bool, dirt: bool)
  {
    ghost predicate Valid()
    {
      |inodeMap| == |inodeMapDirt| && |zoneMap| == |zoneMapDirt| &&
      (forall k :: 0 <= k < |inodeMap| ==> |inodeMap[k]| == BLOCK_SIZE) &&
      (forall k :: 0 <= k < |zoneMap| ==> |zoneMap[k]| == BLOCK_SIZE)
    }
  }

  const ZERO_DSUPER: DSuper := DSuper(0, 0, 0, 0, 0, 0, 0, 0)

  /** A free superblock slot. */
  const FREE_SUPER: Super := Super(ZERO_DSUPER, [], [], [], [], 0, NONE, NONE, 0, false, false)

  /** `struct file`: an open-file table slot; `inode` is an inode-table slot. */
  datatype File = File(mode: int, flags: int, count: nat, inode: int, pos: int)

  const FREE_FILE: File := File(0, 0, 0, NONE, 0)

  /** `struct sigaction`. */
  datatype SigAction = SigAction(handler: int, mask: bv32, flags: bv32, restorer: int)

  const TASK_RUNNING: int := 0
  const TASK_INTERRUPTIBLE: int := 1
  const TASK_UNINTERRUPTIBLE: int := 2
  const TASK_ZOMBIE: int := 3
  const TASK_STOPPED: int := 4

  /**
   * `struct task_struct` without the LDT and the TSS, except the saved
   * `eax`. `pwd`, `root` and `executable` are inode-table slots, `filp`
   * holds file-table slots. The six ids are `unsigned short`, `alarm`
   * is a 32-bit `long`.
   */
  datatype Task = Task(state: int, counter: int, priority: int, signal: bv32,
                       sigaction: seq<SigAction>, blocked: bv32, exitCode: int,
                       startCode: int, endCode: int, endData: int, brk: int, startStack: int,
                       pid: int, father: int, pgrp: int, session: int, leader: bool,
                       uid: u16, euid: u16, suid: u16, gid: u16, egid: u16, sgid: u16,
                       alarm: i32, utime: int, stime: int, cutime: int, cstime: int,
                       startTime: int, tty: int, umask: int,
                       pwd: int, root: int, executable: int, closeOnExec: bv32,
                       filp: seq<int>, eax: int)
  {
    ghost predicate Valid() { |sigaction| == 32 && |filp| == NR_OPEN }
  }
}
