/**
 * Shared data model of pdd, a parallel `dd`: the constants of pdd.h, the
 * per-worker assignment record, the validated configuration and the error
 * kinds that make the program exit.
 */
module PddTypes {

  /** One byte of a file or device. */
  newtype byte = b: int | 0 <= b < 256

  const ONE_KB: nat := 1024
  const ONE_MB: nat := 1024 * 1024
  const ONE_GB: nat := 1024 * 1024 * 1024
  /** Size of the fixed character buffers (paths, the copied digit run). */
  const LEN_SM_BUF: nat := 300
  /** Block size used when none (or zero) is given. */
  const DEFAULT_BS: nat := 4096
  /** Largest value strtoull can return without reporting ERANGE. */
  const ULLONG_MAX: nat := 0xFFFF_FFFF_FFFF_FFFF
  /** Largest thread count that fits the `uint8_t` counter. */
  const MAX_THREADS: nat := 255

  /**
   * The settings the argument scanner leaves in the process-wide variables:
   * offsets and count in blocks, the block size in bytes, the thread count.
   */
  datatype Config = Config(skip: nat, seek: nat, count: nat, block: nat, threads: nat)

  /**
   * One worker's assignment (`struct th_info` without the thread handle and
   * the two path pointers, which every worker shares): byte offsets into the
   * source and the destination, the bytes to move and the buffer size.
   */
  datatype ThInfo = ThInfo(threadNum: nat, skip: nat, seek: nat, sizeData: nat, sizeBuff: nat)

  /** Why a worker gives up: read or write returned fewer bytes than asked. */
  datatype IoError = ShortRead | ShortWrite

  /** What a worker returns: 0 in the source, or 1 after an I/O failure. */
  datatype Status = Done | Failed(reason: IoError)

  /** Configuration errors, each of which ends the process before any copy. */
  datatype ConfigError =
    | NoMatch          // the number has no digit at all
    | TooLong          // the matched text does not fit a LEN_SM_BUF buffer
    | UnknownUnit      // the matched text ends in a character other than a digit, K, M or G
    | ValueOutOfRange  // strtoull reports ERANGE for the digits
    | ThreadsOutOfRange
    | ThreadsTooBig
    | ThreadsZero
    | CountZero

  datatype Result<T> = Ok(value: T) | Err(error: ConfigError)

  function Min(a: nat, b: nat): nat { if a <= b then a else b }

  /** One more copy of `c`: the step the offset and block arithmetic takes everywhere. */
  lemma MulStep(i: nat, c: nat)
    ensures i * c + c == (i + 1) * c
  {
  }
}
