/** What several modules need. */
module Basics {
  datatype Option<T> = None | Some(value: T)

  /** GCHeap::kBlockSize, the size of a page and of a block of small objects, in bytes. */
  const BLOCK_SIZE: nat := 4096

  /** What the heap grows by at least, and commits at least if it can, in pages. */
  const MIN_HEAP_INCREMENT: nat := 32

  function Max(a: int, b: int): int {
    if a >= b then a else b
  }

  function Min(a: int, b: int): int {
    if a <= b then a else b
  }
}
