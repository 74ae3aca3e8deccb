/**
 * What the page provider hands out (`kma_page_t`) and the constants every
 * allocator of the repository shares.
 */
module Pages {
  /** Bytes in a page: assumed 8192, the size of the largest power-of-two class (kma.h is not part of this model). */
  const PAGESIZE: int := 8192
  /** The null address. */
  const NULL: int := 0

  /** A page handed out by the page provider (`kma_page_t`): its id and base address. */
  datatype PageDesc = PageDesc(id: int, ptr: int)
}
