/** Constants of param.h and the memory layout, and a few general helpers. */
module Params {
  const NPROC := 64
  const NINODE := 50
  const NDEV := 10
  const MAXOPBLOCKS := 10
  const LOGSIZE := MAXOPBLOCKS * 3
  const NBUF := MAXOPBLOCKS * 3

  const UINT := 0x1_0000_0000
  const PGSIZE := 4096
  const KERNBASE := 0x8000_0000
  const KERNPAGE := KERNBASE / PGSIZE

  datatype Option<T> = None | Some(value: T)

  function Min(a: int, b: int): int {
    if a < b then a else b
  }

  function Max(a: int, b: int): int {
    if a > b then a else b
  }
}
