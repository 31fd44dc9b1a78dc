/** The address constants and linker symbols of the kernel
    (kernel/src/mm/layout.rs, kernel/src/kernel.ld). */
module Layout {
  import opened Bits
  import opened Sv39Format

  const MAX_VA: Word := 0x40_0000_0000
  const TRAMPOLINE_BASE_VA: Word := MAX_VA - 4096
  const TRAPFRAME_BASE_USER_VA: Word := TRAMPOLINE_BASE_VA - 2 * 4096
  const TEXT_BASE_USER_VA: Word := 0x1_0000

  const UART_BASE: Word := 0x1000_0000
  const VIRTIO_BASE: Word := 0x1000_1000
  const CLINT_BASE: Word := 0x200_0000
  const CLINT_SIZE: Word := 0x1_0000
  const PLIC_BASE: Word := 0xc00_0000
  const PLIC_SIZE: Word := 0x40_0000

  /** Page numbers of the pages every space shares or places at fixed addresses. */
  const TRAMPOLINE_VPN: nat := 0x3ff_ffff
  const TRAPFRAME_VPN: nat := 0x3ff_fffd
  const TEXT_VPN: nat := 0x10

  /** The linker symbols; a section starts where the one before it ends. */
  datatype Linker = Linker(textStart: Word, trampoline: Word, textEnd: Word, rodataEnd: Word, dataEnd: Word,
                           bssEnd: Word, stackEnd: Word, heapEnd: Word)

  /** What the linker script fixes: 4K alignment, order, the 512K boot stack, and 128M of RAM
      from 0x8000_0000. */
  predicate LinkerOk(l: Linker) {
    && l.textStart == 0x8000_0000 && l.heapEnd == 0x8800_0000
    && l.textStart <= l.trampoline && l.trampoline + PAGE_SIZE <= l.textEnd
    && l.textEnd <= l.rodataEnd <= l.dataEnd <= l.bssEnd
    && l.stackEnd == l.bssEnd + 0x8_0000 && l.stackEnd <= l.heapEnd
    && l.trampoline % PAGE_SIZE == 0 && l.textEnd % PAGE_SIZE == 0 && l.rodataEnd % PAGE_SIZE == 0
    && l.dataEnd % PAGE_SIZE == 0 && l.bssEnd % PAGE_SIZE == 0 && l.stackEnd % PAGE_SIZE == 0
  }

  /** The heap that the frame allocator manages, by frame numbers. */
  predicate InLinkerHeap(l: Linker, f: nat) {
    l.stackEnd / PAGE_SIZE <= f < l.heapEnd / PAGE_SIZE
  }
}
