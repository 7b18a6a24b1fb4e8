/**
 Sizes that several parts of the system must agree on (param.h, mmu.h, memlayout.h, fs.h), and the
 result of an operation that may have none.
 */
module Params {

  const BSIZE := 512                    // bytes in a disk block
  const MAXOPBLOCKS := 10               // blocks that one file-system operation may log
  const LOGSIZE := 3 * MAXOPBLOCKS
  const NBUF := 3 * MAXOPBLOCKS
  const PGSIZE := 4096
  const KERNBASE := 0x8000_0000
  const U32 := 0x1_0000_0000

  datatype Option<T> = None | Some(value: T)
}
