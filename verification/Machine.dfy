/** The 32-bit machine: word widths, wrap-around and the constants the kernel is built with. */
module Machine {

  const TOP := 0x1_0000_0000        // one past the last address
  const PAGE_SIZE := 0x1000
  const PAGE_COUNT := 0x10_0000
  const HEAP_START := 0x40_0000
  const HSIZE := 24                 // sizeof(memory_block_t): four words and two debug words

  type u8 = x: int | 0 <= x < 0x100
  type u32 = x: int | 0 <= x < 0x1_0000_0000

  datatype Option<+T> = None | Some(value: T)

  /** Unsigned 32-bit arithmetic: the value that is left after the carry is lost. */
  function Wrap(x: int): (r: u32)
  {
    x % TOP
  }
}
