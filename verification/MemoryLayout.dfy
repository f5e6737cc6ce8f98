/** boot/config_boot.h, kern/page/page_stuff.h, kern/mem/vm_kern.h: the constants that the memory modules share. */
module MemoryLayout {
  const PGSIZE: nat := 4096
  const KERN_HIGH_MAPPING: nat := 0x8000_0000
  const KERN_METADATA: nat := 0xf000_0000
  const MM_BASE: nat := 0x10_0000
}
