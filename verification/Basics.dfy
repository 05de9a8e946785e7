/** What several parts of the kernel share. */
module Basics {

  datatype Option<+T> = None | Some(value: T)

  newtype byte = b: int | 0 <= b < 256

  const PAGE_SIZE: nat := 0x1000

  /** heap_get_page_count and size_to_pages: the number of pages that hold `length` bytes. */
  function PageCount(length: nat): nat {
    length / PAGE_SIZE + if length % PAGE_SIZE != 0 then 1 else 0
  }
}
