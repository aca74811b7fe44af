/** Constants of the 4x4 Epiphany board as the host driver sees it, and the
    mapping from a linear core index to grid coordinates. */
module Platform {

  /** The grid is opened whole: 4 rows of 4 cores. */
  const ROWS: int := 4
  const COLS: int := 4
  const CORES: int := 16

  /** Values of a per-core status word in the control block. */
  const STATUS_NONE: int := 0
  const STATUS_SCHEDULED: int := 1
  const STATUS_RUNNING: int := 2
  const STATUS_DONE: int := 3

  /** errno values returned (negated, or wrapped in an error reference). */
  const EIO: int := 5
  const EBADF: int := 9
  const ENOMEM: int := 12
  const EINVAL: int := 22
  const ENOSYS: int := 38

  /** Argument block: the header holds a count and MAX_ARGS size slots of 4 bytes. */
  const MAX_ARGS: int := 8
  const HEADER_SIZE: int := 4 + 4 * MAX_ARGS
  /** Ceiling on the summed argument payload. */
  const MAX_ARGS_SIZE: int := 2048
  /** Top of the shared-memory area the argument block is placed against. */
  const ARGS_MEM_END_OFFSET: int := 0x0100_0000

  /** The result of an operation that returns the device/team or an error reference. */
  datatype Outcome = Pass | Fail(errno: int)

  /** Row and column of linear core index i (i / 4, i % 4). */
  function Row(i: int): int { i / COLS }
  function Col(i: int): int { i % COLS }

  /** Linear index of the core at (row, col). */
  function CoreAt(row: int, col: int): int { row * COLS + col }

  /** Every index of the grid has coordinates inside the grid, and they name it back. */
  lemma IndexToCoordinates(i: int)
    requires 0 <= i < CORES
    ensures 0 <= Row(i) < ROWS && 0 <= Col(i) < COLS
    ensures CoreAt(Row(i), Col(i)) == i
  {
  }

  /** Every coordinate pair of the grid is reached by an index that maps back to it. */
  lemma CoordinatesToIndex(row: int, col: int)
    requires 0 <= row < ROWS && 0 <= col < COLS
    ensures 0 <= CoreAt(row, col) < CORES
    ensures Row(CoreAt(row, col)) == row && Col(CoreAt(row, col)) == col
  {
  }

  /** The mapping i -> (i / 4, i % 4) is one-to-one on the grid. */
  lemma CoordinatesInjective(i: int, j: int)
    requires 0 <= i < CORES && 0 <= j < CORES
    requires Row(i) == Row(j) && Col(i) == Col(j)
    ensures i == j
  {
    IndexToCoordinates(i);
    IndexToCoordinates(j);
  }
}
