# Epiphany device driver: launch, argument packing and completion

This project models the host side of the PAL Epiphany device
(`src/base/devices/epiphany/device.c`). That code drives a 4×4 grid of
Epiphany cores through the e-hal fabric library. The model covers these
operations:

- **Lifecycle.** `dev_init` brings the fabric up, opens the grid, and
  allocates and zeroes the control block. It is idempotent. `dev_fini`
  releases the per-device data.
- **`dev_open`.** It accepts only the whole grid, and only on an opened
  device.
- **`dev_query`.** A fixed property table.
- **`dev_run`.** It first checks the core range, then the opened flag.
  It then packs the arguments into a shared-memory block:
  - the block is a header followed by the argument bytes;
  - its size is rounded up to 8 bytes;
  - it is placed flush against `ARGS_MEM_END_OFFSET`.

  Next it records a value in the control block's `argsoffset` field.
  Finally it runs three strictly ordered loops over `[start, start + size)`:
  load the program, mark the status word SCHEDULED, start the core.
- **`dev_wait`.** It re-reads the 16 status words until none is SCHEDULED
  or RUNNING.

The modules follow those parts:

| file | module | contents |
|---|---|---|
| platform.dfy | `Platform` | grid size, status values, errno values, layout constants, index ↔ (row, col) |
| hal.dfy | `Hal` | the header record, the fabric's answers (`Fabric`), the log entry of each launch-time fabric call (`Op`), launch phases |
| args_packing.dfy | `ArgsPacking` | payload size, header, `(n + 7) & ~7`, block placement and layout |
| launch.dfy | `Launch` | `LaunchSpec`: dev_run as a function of its inputs, and the lemmas about it |
| poll.dfy | `Poll` | the busy predicate, one poll, and the poll loop |
| query.dfy | `Query` | the property table |
| device.dfy | `EpiphanyDevice` | class `Device` (init, fini, open, run) and class `Team` |
| scenarios.dfy | `Scenarios` | four client runs: bring-up (init twice, open), a full-grid launch, an all-DONE wait, and the argument ceiling |

The fabric is not part of this model. Whether a fabric call succeeds is
an input, the `Fabric` datatype: one flag per call made during init, one
for the argument-block allocation, and the sets of core indices whose load
or start fails. The calls a launch makes are appended, in order, to the
device's `trace`. Loads and starts address a core by (row, col); marks
address it by its index.

The status array is written by the host and changed concurrently by the
cores. For that reason `dev_wait` is given the successive snapshots it
reads rather than reading the array.

The model follows the code in two places where it could be read otherwise:

- The field name `argsoffset` suggests an offset, but the control block's
  `argsoffset` receives `totsize`, the block's size (device.c:179-182).
- `e_write` results are never checked, so writes cannot fail in the model.

## Model

| member | source | states |
|---|---|---|
| `Platform.IndexToCoordinates` | src/base/devices/epiphany/device.c:186-187 | each index in [0,16) maps to a cell of the 4×4 grid, and `row * 4 + col` gives the index back |
| `Platform.CoordinatesToIndex` | src/base/devices/epiphany/device.c:198-199 | every cell of the grid is reached by an index in [0,16) that maps back to it, so the mapping is onto |
| `Platform.CoordinatesInjective` | src/base/devices/epiphany/device.c:186-187 | two indices of the grid with the same (i/4, i%4) are equal, so the mapping is one-to-one |
| `ArgsPacking.PackHeader` | src/base/devices/epiphany/device.c:153-160 | the accumulated payload size is the sum of all argument sizes; the header records the count, then each argument's size in order, with unused slots zero |
| `ArgsPacking.RoundUp8` | src/base/devices/epiphany/device.c:166 | the rounded size is a multiple of 8, at least the input, and less than the input plus 8 |
| `ArgsPacking.MaskClearsRemainder` | src/base/devices/epiphany/device.c:166 | `& ~7` subtracts the remainder by 8, which is the rounding RoundUp8 performs |
| `ArgsPacking.TotalSize` | src/base/devices/epiphany/device.c:165-166 | the block size is 8-aligned and covers the header plus payload with less than 8 bytes of padding |
| `ArgsPacking.OffsetsMonotone` | src/base/devices/epiphany/device.c:173-177 | argument offsets never decrease, each argument ends at or before the offset of every later argument, and exactly where the next argument begins |
| `ArgsPacking.ArgWritesAt` | src/base/devices/epiphany/device.c:174-177 | the j-th argument write stores argument k+j, in order, at its offset after the header |
| `ArgsPacking.HeaderAtStart` | src/base/devices/epiphany/device.c:172-173 | for any argument list, including an empty one, the header is the first write, at offset 0, followed by one write per argument |
| `ArgsPacking.BlockLayout` | src/base/devices/epiphany/device.c:172-177 | for every argument, a lone one included: the header is written first at offset 0; argument k is written at header size plus the sizes before it and ends inside the block; each argument ends at or before the start of every later one |
| `ArgsPacking.PayloadEnd` | src/base/devices/epiphany/device.c:165-177 | the last argument ends exactly at header size plus payload size, which is at most the rounded block size |
| `ArgsPacking.BlockPlacement` | src/base/devices/epiphany/device.c:162-170 | a payload within the ceiling gives a block at a non-negative, 8-aligned offset that ends exactly at ARGS_MEM_END_OFFSET |
| `Launch.Sweep` | src/base/devices/epiphany/device.c:185-202 | a load, mark or start loop as a function: the calls it issues and whether all succeeded; characterised by `SweepCalls` and `SweepOutcome` below |
| `Launch.SweepCalls` | src/base/devices/epiphany/device.c:185-202 | a load, mark or start loop calls cores lo, lo+1, … in order, never more than the range holds, and one call per core when it completes |
| `Launch.SweepOutcome` | src/base/devices/epiphany/device.c:185-202 | a load or start loop succeeds iff no core in range fails; on failure it stops right after the first failing core |
| `Launch.SweepShape` | src/base/devices/epiphany/device.c:185-202 | both of the above together |
| `Launch.SweepInPhase` | src/base/devices/epiphany/device.c:185-202 | every call issued by one loop belongs to that loop's phase |
| `Launch.LaunchSpec` | src/base/devices/epiphany/device.c:141-204 | dev_run as a function of readiness, range, arguments, path and fabric answers: return code, fabric calls in order, argsoffset value, whether the range is marked; characterised by `LaunchOutcome`, `LaunchPhaseOrder`, `LaunchSucceeded`, `LoadFailureMarksNothing` and `StartFailureAfterMarking` below |
| `Launch.LaunchOutcome` | src/base/devices/epiphany/device.c:141-204 | -EINVAL iff the range is bad; -EBADF iff the range is good but the device is not open; both touch nothing; -ENOMEM iff the payload exceeds the ceiling (at the ceiling passes) or the block allocation fails; over the ceiling no fabric call is made, and a refused block made only its allocation call; argsoffset receives totsize; the range is marked iff every load succeeds; 0 iff loads and starts all succeed |
| `Launch.CleanLaunch` | src/base/devices/epiphany/device.c:141-204 | on an open device, with a valid range, a payload within the ceiling, the block allocated and no failing core, a launch returns 0 and marks its range |
| `Launch.PackInPhase` | src/base/devices/epiphany/device.c:151-183 | packing issues argument count + 3 calls, none addressing a core |
| `Launch.LaunchPhaseOrder` | src/base/devices/epiphany/device.c:151-202 | in every launch, all packing precedes every load, every load precedes every mark, and every mark precedes every start |
| `Launch.SweepSegment` | src/base/devices/epiphany/device.c:185-202 | a completed loop placed after other calls puts core lo+k at the k-th position after them |
| `Launch.SweepsLayout` | src/base/devices/epiphany/device.c:185-202 | three completed loops after p packing calls: position p+k loads core start+k, p+size+k marks it, p+2·size+k starts it |
| `Launch.LaunchSucceeded` | src/base/devices/epiphany/device.c:185-204 | on success core start+k is the k-th load, the k-th mark and the k-th start, after the packing calls |
| `Launch.LoadFailureMarksNothing` | src/base/devices/epiphany/device.c:185-190 | when a load fails: -EIO is returned; argsoffset was already written; the packing calls come first, then cores are loaded up to and including the first failing one; none is marked or started |
| `Launch.MarkedOps` | src/base/devices/epiphany/device.c:185-204 | a launch that marks its range has passed every load; it issues the packing calls, then the full load and mark loops, then the start loop; it returns 0 iff that start loop succeeds; its first calls are exactly the packing calls |
| `Launch.StartFailureLayout` | src/base/devices/epiphany/device.c:191-202 | after the packing, a completed load loop and the mark loop, a failing start loop marks the whole range in order and starts up to and including the first failing core |
| `Launch.StartFailureAfterMarking` | src/base/devices/epiphany/device.c:191-202 | when a start fails: the calls begin with exactly the packing calls, followed by loads of every core in range in order, then marks of every core in order, then starts up to and including the first failing core |
| `Launch.ShapeCoversRange` | src/base/devices/epiphany/device.c:185-202 | a launch trace of the success shape loads, marks and starts every core of the range |
| `Launch.ShapeStaysInRange` | src/base/devices/epiphany/device.c:186-199 | every load, mark and start of such a trace addresses a grid core inside the range |
| `Launch.ShapeLoadsDistinct` | src/base/devices/epiphany/device.c:186-187 | no two loads of such a trace address the same cell |
| `Launch.ShapeAddressesExactly` | src/base/devices/epiphany/device.c:185-202 | the three facts above together |
| `Launch.LaunchAddressesExactlyRange` | src/base/devices/epiphany/device.c:185-202 | a successful launch loads, marks and starts exactly the cores of [start, start+size), each load addressing a distinct cell |
| `Poll.NeedWait` | src/base/devices/epiphany/device.c:219-234 | the poll predicate: some status word is SCHEDULED or RUNNING (`Busy`); `ScanStatus` is proved to compute it and `WaitIsDeviceScoped` shows it covers the whole device |
| `Poll.ScanStatus` | src/base/devices/epiphany/device.c:217-234 | one poll looks at all 16 words and asks to keep waiting iff some word is SCHEDULED or RUNNING |
| `Poll.WaitForCompletion` | src/base/devices/epiphany/device.c:208-244 | the wait returns 0 at the first snapshot with no SCHEDULED or RUNNING word, all earlier ones being busy; while every snapshot is busy it keeps waiting |
| `Poll.WaitIsDeviceScoped` | src/base/devices/epiphany/device.c:218-234 | completion is judged on the whole device: a snapshot whose launched range is all DONE can still keep the caller waiting |
| `Query.PropertyTable` | src/base/devices/epiphany/device.c:81-110 | the switch: every value it answers is non-negative; MEMARCH and WHOAMI, and only they, are not implemented; exactly the ids outside TYPE..WHOAMI are unknown |
| `Query.QueryAsWritten` | src/base/devices/epiphany/device.c:76-111 | dev_query as written: every answer fits a 32-bit int |
| `Query.LargeAnswersReadAsErrors` | src/base/devices/epiphany/device.c:102-105 | as written, the MEMBASE and VERSION answers come back negative |
| `Query.Query` | src/base/devices/epiphany/device.c:76-111 | a non-negative answer iff the device exists and the property has a value; -EINVAL without a device or for an unknown id; -ENOSYS for MEMARCH and WHOAMI; 16 nodes in a 4×4 grid |
| `Query.QueryAgreesBelowInt32` | src/base/devices/epiphany/device.c:76-111 | the corrected and as-written queries agree on every property except MEMBASE and VERSION |
| `EpiphanyDevice.OpenCheck` | src/base/devices/epiphany/device.c:119-125 | open passes iff start = 0, count = 16 and the device is opened; a bad range gives EINVAL before the opened check; a closed device gives EBADF |
| `EpiphanyDevice.Device.Init` | src/base/devices/epiphany/device.c:10-57 | a no-op returning the device when already initialised; otherwise the failing call decides EIO or ENOMEM and leaves the device uninitialised; success zeroes all status words and argsoffset and sets opened |
| `EpiphanyDevice.Device.Fini` | src/base/devices/epiphany/device.c:59-74 | afterwards the device has no per-device data and is not opened; a no-op when there is none |
| `EpiphanyDevice.Device.Open` | src/base/devices/epiphany/device.c:113-130 | returns OpenCheck's verdict and binds the team to the device exactly when it passes |
| `EpiphanyDevice.Device.Run` | src/base/devices/epiphany/device.c:132-205 | return code and calls issued are those of LaunchSpec; argsoffset gets totsize once packing completes; when the range is marked, exactly its status words become SCHEDULED; otherwise no status word changes |
| `EpiphanyDevice.Device.PackAndLaunch` | src/base/devices/epiphany/device.c:151-204 | the part of dev_run after its checks does what LaunchSpec says for an open device |
| `EpiphanyDevice.Device.PackArgs` | src/base/devices/epiphany/device.c:151-183 | packing succeeds iff the payload is within the ceiling and the block is allocated; on success it issues exactly the packing calls and stores totsize in argsoffset; over the ceiling it issues nothing; on a refused block it issues only the allocation |
| `EpiphanyDevice.Device.LoadMarkStart` | src/base/devices/epiphany/device.c:185-204 | the load loop runs first; marks and starts follow only if every load succeeded; a load failure leaves all status words unchanged |
| `EpiphanyDevice.Device.CopyArgs` | src/base/devices/epiphany/device.c:172-177 | the header is written, then each argument at the running offset |
| `EpiphanyDevice.Device.CallCores` | src/base/devices/epiphany/device.c:185-202 | the load and kick-off loops issue exactly the calls of the corresponding sweep and report its success |
| `EpiphanyDevice.Device.MarkScheduled` | src/base/devices/epiphany/device.c:191-196 | exactly the status words of the range become SCHEDULED, with one mark call per core in order |
| `Scenarios.BringUp` | src/base/devices/epiphany/device.c:10-130 | on a healthy fabric, init (twice, the second a no-op) then open of the whole grid leave the device initialised and opened and the team bound to it |
| `Scenarios.FullGridLaunch` | src/base/devices/epiphany/device.c:132-205 | on a healthy fabric, a launch on all 16 cores of a freshly opened device returns 0 and leaves all 16 status words SCHEDULED |
| `Scenarios.AllDoneEndsWait` | src/base/devices/epiphany/device.c:216-242 | a snapshot in which all 16 words read DONE ends the wait at the first poll with 0 |
| `Scenarios.CeilingBoundary` | src/base/devices/epiphany/device.c:162-163 | a payload exactly at the ceiling launches; one byte more returns -ENOMEM with no fabric call issued |

## Findings

| source | as written | input that shows it | evidently intended | confidence | as-written member | corrected member |
|---|---|---|---|---|---|---|
| src/base/devices/epiphany/device.c:102-105 | `dev_query` returns `0x80800000` (MEMBASE) and `0xdeadbeef` (VERSION) through an `int` | `dev_query(dev, P_PROP_MEMBASE)` yields -2139095040; for VERSION it yields -559038737. Both are negative, like the `-errno` error results | the memory base address and the version value, kept apart from error codes | medium (not executed; depends on a 32-bit two's-complement `int`) | `Query.LargeAnswersReadAsErrors` | `Query.Query` |

## Left out

- `Fabric`: the e-hal and e-loader calls are not modelled. This covers `e_init`, `e_reset_system`, `e_open`, `e_alloc`, `e_write`, `e_read`, `e_load`, `e_start`, `e_close` and `e_finalize`. Only whether each call succeeds is modelled, as an input. Their implementation is not part of this model.
- Calls made by init and fini (`e_init`, `e_close`, `e_finalize`, …) are not logged in `trace`. Only the calls of a launch are logged.
- `malloc` and `free` of the per-device data are not modelled. They become the `initialized` flag. A failed `malloc` is one of the `Fabric` inputs.
- `Device.Init`: the model checks that the failing call decides the error. It does not check that the fabric is left half brought up. For example, after `e_open` succeeds and `e_alloc` fails, the source frees the data without calling `e_close`.
- `dev_open` and `dev_wait` read `dev_data` without a NULL check. The model reads the opened flag as false on a device with no per-device data (`Valid`: opened implies initialised).
- `Poll.WaitForCompletion`: `dev_wait` loops forever until no core is busy. The model is given a finite run of snapshots. Its result is either "returned at poll k" or "still waiting after the last snapshot". The model does not show non-termination, and `usleep(1000)` between polls is left out.
- The cores move their own status words from SCHEDULED to RUNNING to DONE. That concurrency is not modelled. Successive snapshots are arbitrary inputs.
- Argument contents are logged as the bytes handed to each write. The byte encoding of the header (`uint32_t` fields) and of `totsize` in `argsoffset` is not modelled.
- `Device.Run`: the model requires at most `MAX_ARGS` arguments. The source writes past the header's size array when `argn` is larger (undefined behaviour). The source also does not guard against a negative `argn`.
- C integer widths are not modelled. This covers overflow of `start + size`, wrap of `argssize` (`size_t`), and the width of `totsize`. Integers are unbounded. `MaskClearsRemainder` is stated on 32-bit words.
- The `team`, `function` and `flags` parameters of `dev_run` are unused by the source, so they are left out. `prog` only contributes its `path`.
- The header files that define the constants are not part of this model: `ctrl.h`, `dev_epiphany.h` and `pal_base.h`. The model fixes these values:
  - status values NONE=0, SCHEDULED=1, RUNNING=2, DONE=3;
  - `P_RUN_MAX_ARGS`=8, with a header of 4 + 4·8 bytes;
  - `EPIPHANY_DEV_MAX_ARGS_SIZE`=2048;
  - `ARGS_MEM_END_OFFSET`=0x01000000;
  - property ids 0–13;
  - `P_DEV_EPIPHANY`=1;
  - Linux errno values.

  Some proofs depend on these values:
  - `BlockPlacement` needs `ARGS_MEM_END_OFFSET` to be a multiple of 8 and at least the largest block;
  - the out-of-range clauses of `Query` and `PropertyTable` need `P_PROP_TYPE` and `P_PROP_WHOAMI` to be the lowest and highest property ids, with the ids in between contiguous;
  - `Device.Init` writes zeroes and promises `STATUS_NONE`, so it needs `STATUS_NONE` = 0;
  - the phase and wait proofs need the four status values and the errno values to be distinct.
