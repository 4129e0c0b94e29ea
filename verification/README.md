# timectxswws: iteration count, layout and working-set touching

`timectxswws` is a Linux micro-benchmark. It measures the cost of a process
context switch while each process touches a working set of a given number of
4 KiB pages. The two processes hand control to each other through a futex in
a shared-memory segment. This project models the sequential parts of the
program and proves their properties:

- `get_iterations` (module `Iterations`). The scaling loop starts at 1000 and
  steps by 1000 until `iterations * ws_pages * 4096` reaches 4 GiB. Its guard
  is evaluated in `unsigned long long` arithmetic. The method
  `GetIterations` keeps the loop and its wrapping guard. It is proved against
  a declarative specification, `IsIterationCount`: the exit condition holds,
  one step less would not reach the floor, and the count is a positive
  multiple of 1000. It is also proved equal to a closed form,
  `1000 * ceil(2^20 / (1000 * ws))`.
- The shared segment's layout and the working-set toucher (module
  `WorkingSet`). The segment is one header page holding the flag, followed by
  the working set. `memset` is modelled on an array of bytes (a `byte` newtype), together with the
  calibration loop and the per-handoff touch of the shared working set.
- `main` (module `Driver`). It checks the arguments, derives the sizes and the
  switch count, and produces an ordered trace of visible effects and an exit
  code.

At zero pages the code is inconsistent. Lines 44, 71 and 85 of
timectxswws.c test `ws_pages` before touching memory, so a zero-page run is
expected. Line 40, however, calls `get_iterations(0)`, and that loop never
returns (see Findings). `GetIterations` follows the code and requires
`ws > 0`. For the driver this model chooses its own total count,
`IterationCount`, which returns 1000 (the loop's starting value) at zero
pages, so that a zero-page run completes.

Where stdout goes changes what a run prints. On a terminal stdout is line
buffered, and the memset line appears once. On a pipe or a file it is fully
buffered, so the memset line is still in the buffer at `fork`. The child
inherits that copy and flushes it when it returns, so the output is the
memset line twice, then the context-switch line. The driver takes the kind
of stdout as a parameter.

## Model

| member | source | states |
|---|---|---|
| `Iterations.GetIterations` | timectxswws.c:22-28 | For 0 < ws <= MaxPages, the loop exits with a count that meets `IsIterationCount`: a multiple of 1000 of at least 1000 whose traffic reaches 2^32, while one step less does not. The count equals `IterationCount(ws)`. It is at most 1049000, so the return as `int` is exact. |
| `Iterations.Guard` | timectxswws.c:24 | The loop guard in `unsigned long long` arithmetic. Whenever the full product `iterations * ws_pages * 4096` is below 2^64, the guard holds exactly when the traffic is below 4 GiB. |
| `Config.MulU64` | timectxswws.c:24 | An `unsigned long long` product: always below 2^64, and equal to the mathematical product when that product fits. |
| `Iterations.GuardExact` | timectxswws.c:24 | In every state the loop reaches with ws <= MaxPages, the `unsigned long long` product stays below 2^64. The wrapped guard therefore equals the mathematical comparison with 4 GiB. |
| `Iterations.WrappedGuardHangs` | timectxswws.c:24 | At 2^52 pages the wrapped product is 0 for every count, so the guard always holds and the loop never exits. |
| `Iterations.IterationCountUnique` | timectxswws.c:23-25 | At most one count meets the exit condition together with minimality, so the specification determines the loop's result. |
| `Iterations.CountIsClosedForm` | timectxswws.c:22-28 | The count the loop returns for ws > 0 equals the closed form `1000 * ceil(2^20 / (1000 * ws))`. |
| `Iterations.IterationsMeetsSpec` | timectxswws.c:22-28 | The closed form `1000 * ceil(2^20 / (1000 * ws))` meets the loop's specification for every ws > 0. |
| `Iterations.IterationCountRange` | timectxswws.c:23-25 | Every count meeting the specification for ws >= 1 lies between 1000 and 1049000. |
| `Iterations.LargeWorkingSetSingleStep` | timectxswws.c:23-25 | For ws >= 1049 the count is exactly 1000, the starting value. |
| `Iterations.IterationCountFitsInt32` | timectxswws.c:27 | The count and four times it (at most 4196000) both fit in a signed 32-bit `int`. |
| `Iterations.ZeroPagesNeverExit` | timectxswws.c:22-26 | At ws == 0 the wrapped guard holds for every count, so the loop never exits, and no count meets the specification. |
| `Iterations.IterationCount` | timectxswws.c:22-28 | The total count: for ws > 0 it meets the loop's specification, and for ws == 0 it is 1000. It is always a multiple of 1000 in [1000, 1049000]. |
| `WorkingSet.WorkingSetBytes` | timectxswws.c:45 | `ws_pages * 4096` bytes, the size used at lines 45, 48, 72 and 86: a whole number of pages, exactly ws of them. |
| `WorkingSet.SegmentSize` | timectxswws.c:57-61 | The segment of `(ws + 1) * 4096` bytes is exactly the 4096-byte header plus the working set at offset 4096. The 4-byte flag at offset 0 ends before the working set begins. |
| `Config.ByteOf` | timectxswws.c:48 | The `unsigned char` that `memset` stores for an `int` fill value: congruent to the value modulo 256, and the value itself when it is in [0, 256). |
| `WorkingSet.Memset` | timectxswws.c:48 | Every byte in [from, from + n) becomes `v mod 256` (C's conversion to `unsigned char`). Every other byte of the buffer is unchanged. |
| `WorkingSet.Calibrate` | timectxswws.c:47-49 | After `iterations >= 1` passes, every byte of the buffer equals `(iterations - 1) mod 256`. With no passes the buffer is unchanged. |
| `WorkingSet.TouchWorkingSet` | timectxswws.c:71-73 | The touch in both processes (also lines 85-87): with pages, every working-set byte equals `i mod 256`. The header page, which holds the flag, is unchanged. With zero pages nothing changes. |
| `Driver.CheckArgs` | timectxswws.c:31-39 | A run proceeds exactly when argc == 2 and the parsed size is >= 0, and it proceeds with that size. A wrong argument count is rejected whatever the size. |
| `Driver.SwitchCount` | timectxswws.c:100 | The reported switch count is a multiple of 4, and for any count the loop can return it is at most 4196000, which fits in `int`. |
| `Driver.Kib` | timectxswws.c:52 | The KiB figure printed at lines 52 and 102 is exactly the working-set bytes divided by 1024. |
| `Driver.Benchmark` | timectxswws.c:30-105 | No contract of its own. It is the run as an exit code plus an ordered effect trace, given the parsed argument and the kind of stdout. Its properties are stated by `BenchmarkRejects`, `BenchmarkOutput`, `BenchmarkResources` and `BenchmarkSingleSegment`. |
| `Driver.BenchmarkRejects` | timectxswws.c:31-39 | Exit code 1 happens exactly for a wrong argument count or a negative size. Such a run writes one stderr diagnostic (the usage line exactly for a wrong count), prints nothing to stdout and acquires nothing. Every other run exits 0. |
| `Driver.BenchmarkOutput` | timectxswws.c:44-104 | A run with ws pages prints the memset line only when ws > 0. On a terminal it appears once. With stdout redirected it appears twice, because the child flushes the copy it inherited at `fork`. The context-switch line comes last. Its count is 4 * iterations, between 4000 and 4196000, and fits in `int`. |
| `Driver.BenchmarkResources` | timectxswws.c:44-62 | Calibration (allocate, pass `iterations` times, release) runs only when ws > 0 and comes before the segment is created. The segment size is 4096 plus the working-set bytes. Then come the fork, the attachment, `iterations` handoff rounds and the child's exit. |
| `Driver.BenchmarkSingleSegment` | timectxswws.c:57-104 | A successful run creates exactly one segment and forks exactly once. The parent's `wait` happens after the child has exited, and it does happen. |

## Left out

- The futex handoff protocol (lines 62-97) is not modelled. This covers `FUTEX_WAIT`/`FUTEX_WAKE` with their retry loops, `sched_yield`, and the writes of `0xA`/`0xB` to the flag. It is cross-process concurrency whose correctness rests on kernel futex semantics. In the driver it appears only as one `Handoffs` effect.
- `malloc`, `free`, `shmget`, `fork`, `shmat`, the child's return and `wait` are modelled only as effects in the trace (`Allocate`, `Release`, `CreateSegment`, `Fork`, `AttachSegment`, `ChildExit`, `Wait`). The failure of any of them is not modelled. The segment is never detached or removed (the C code does not do this either).
- `time_ns`, `clock_gettime`, the exit on clock failure, and the elapsed-time arithmetic (`memset_time`, `delta`) are not modelled. These are wall-clock readings.
- `printf` formatting and the `float` per-page and per-switch averages are not modelled. A printed line is modelled as its integer fields.
- `strtol` parsing is not modelled. The driver takes the parsed value as a parameter.
- `Iterations.GetIterations`: requires ws <= MaxPages (4503599626321). Below that bound no product the loop evaluates wraps modulo 2^64. For larger sizes the wrapped loop can hang, for example at 2^52 pages (`WrappedGuardHangs`). The method does not model that range.
- `Driver.Benchmark` has no contract of its own. On a terminal, the order of the child's exit relative to the parent's report is a scheduling choice; the model fixes one order, which does not change the output. It uses `IterationCount` and the mathematical product: at zero pages it completes where the C code loops forever (see Findings), and for sizes above MaxPages it does not reproduce the wrapped loop.
- `Driver.Benchmark` models C's `ws_pages * 4096` and `ws_pages * 4` as mathematical integers. This is exact for the page counts an allocation can satisfy.

## Findings

| source | as written | input that shows it | evidently intended | confidence | as-written member | corrected member |
|---|---|---|---|---|---|---|
| timectxswws.c:22-26 | At `ws_pages == 0` the guard compares `iterations * 0 * 4096` with 4 GiB, which is always true, so `get_iterations` never returns. `main` still calls it (line 40), although lines 44, 71 and 85 explicitly support zero pages. | command-line argument `0` | the run completes and prints only the context-switch line, with a finite count (1000, the loop's starting value) | high; not executed | `Iterations.ZeroPagesNeverExit` | `Iterations.IterationCount` |
