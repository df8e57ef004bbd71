/**
 What the parts of the system share: word size, memory layout, process numbers, and limits.
 */
module Egos {

  datatype Option<T> = None | Some(value: T)

  const WORD_LIMIT := 0x1_0000_0000
  const BLOCK_SIZE := 512

  // ---------- memory layout ----------

  const PAGE_SIZE := 4096
  const RAM_START := 0x80000000
  const APPS_ENTRY := 0x80200000
  const APPS_ARG := 0x80300000
  const APPS_PAGES_BASE := 0x80400000
  const APPS_PAGES_CNT := 1024

  // virtual pages, counted from APPS_ENTRY
  const ARG_PAGE := 256
  const SYSCALL_PAGE := 257
  const STACK_TOP_PAGE := 512

  // ---------- processes and commands ----------

  const MAX_NPROCESS := 16
  const GPID_ALL := -1
  const GPID_PROCESS := 1
  const GPID_USER_START := 5
  const CMD_NARGS := 16
  const CMD_ARG_LEN := 32

  // ---------- text ----------

  const NUL: char := '\0'

  function Spaces(n: nat): (s: string)
    ensures |s| == n
  {
    if n == 0 then "" else Spaces(n - 1) + " "
  }
}
