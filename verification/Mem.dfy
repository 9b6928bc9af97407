/** `src/kernel/mem.h`: what the kernel's allocators share. */
module Mem {
  const PAGESIZE: nat := 4096
}
