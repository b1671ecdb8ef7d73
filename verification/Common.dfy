/**
  What the parts of the kernel share: error numbers, table sizes and the scan for an
  empty slot of a descriptor table.
 */
module Common {
  const EINVAL := 1
  const EACCES := 4
  const ENOMEM := 5
  const MAX_PROCESSES := 7
  const MAX_OPEN_FILES := 16
  const FIRST_FD := 3
  /** A C int is below this. */
  const INT_LIMIT := 0x8000_0000

  datatype Option<T> = None | Some(value: T)

  type Byte = x: int | 0 <= x < 0x100

  /** First slot from `fd` on that is `empty`, or the table size. */
  function FreeSlot<T(==)>(slots: seq<T>, empty: T, fd: nat): (r: nat)
    requires fd <= |slots|
    ensures fd <= r <= |slots|
    ensures r < |slots| ==> slots[r] == empty
    ensures forall k :: fd <= k < r ==> slots[k] != empty
    decreases |slots| - fd
  {
    if fd == |slots| || slots[fd] == empty then fd else FreeSlot(slots, empty, fd + 1)
  }
}
