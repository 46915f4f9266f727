/** Types and constants shared by the buffer pool and the heap file. */
module Storage {

  const PAGE_SIZE := 4096

  newtype Byte = x: int | 0 <= x < 256

  /** Page identifiers are 16-bit. */
  type PageId = x: nat | x < 0x1_0000

  type FrameId = nat

  datatype Option<+T> = None | Some(value: T)

  datatype Outcome<+E> = Pass | Fail(error: E)

  datatype Result<+R, +E> = Success(value: R) | Failure(error: E)

  /** The bytes of one page: a buffer that always has the right length. */
  type PageData = d: seq<Byte> | |d| == PAGE_SIZE witness seq(PAGE_SIZE, i => 0)

  function ZeroPage(): PageData {
    seq(PAGE_SIZE, i => 0)
  }
}
