/** What several components share: results that may be missing, machine constants, memory extents. */
module Platform {

  datatype Option<T> = None | Some(value: T)

  const U32: nat := 0x1_0000_0000
  const PAGE_SIZE: nat := 4096
  const KERNEL_START: nat := 0xC000_0000

  /** A piece of memory that is handed out: where it begins and how long it is. */
  datatype Extent = Extent(at: nat, size: nat)

  ghost predicate Apart(e: Extent, f: Extent) { e.at + e.size <= f.at || f.at + f.size <= e.at }
}
