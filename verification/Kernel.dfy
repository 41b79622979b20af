/** Machine words, page geometry and the address macros of kernel.h. */
module Kernel {
  datatype Option<+T> = None | Some(value: T)

  const WORD_LIMIT := 0x1_0000_0000

  /** uint32_t, and a 32-bit pointer. */
  type Word = x: int | 0 <= x < 0x1_0000_0000

  const KERNEL_BASE: Word := 0xc000_0000
  const PAGE_SIZE := 0x1000
  const BLOCK_SIZE := 0x40_0000
  const NUM_PAGES := 0x10_0000

  /** The VGA text buffer, one page. */
  const TERM_BUFFER: Word := 0xB8000
  const TERM_BUFFER_LEN := 0x1000

  /** The value an unsigned 32-bit operation leaves behind. */
  function Wrap(x: int): Word {
    x % 0x1_0000_0000
  }

  /** addr & PAGE_MASK */
  function PageMask(addr: Word): Word {
    addr - addr % 0x1000
  }

  /** KERNEL_VIRT_TO_PHYS */
  function VirtToPhys(addr: Word): Word {
    Wrap(addr - KERNEL_BASE)
  }

  /** VIRT_TO_PD_INDEX */
  function PdIndex(addr: Word): (i: nat)
    ensures i < 1024
  {
    addr / 0x40_0000
  }

  /** VIRT_TO_PT_INDEX */
  function PtIndex(addr: Word): (i: nat)
    ensures i < 1024
  {
    addr / 0x1000 % 1024
  }

  /** Setting the lowest bit: word | 1. */
  function SetPresent(entry: Word): (e: Word)
    ensures e % 2 == 1 && e / 2 == entry / 2
  {
    if entry % 2 == 1 then entry else entry + 1
  }

  lemma PageParts(addr: Word)
    ensures addr / 0x1000 / 1024 == PdIndex(addr)
    ensures addr == 0x40_0000 * PdIndex(addr) + 0x1000 * PtIndex(addr) + addr % 0x1000
  {
  }
}
