# Static row partitioning for a threaded Mandelbrot renderer

This project models the dispatch core of a multi-threaded Mandelbrot
renderer. The image is a row-major `width * height` buffer of escape-iteration
counts. `mandelbrotThread` rejects more than 32 workers, fills one
`WorkerArgs` record per worker, starts workers `1 .. numThreads - 1` on
threads, runs worker 0 on the calling thread and joins the rest. Each worker
(`workerThreadStart`) works out its own row range and calls the serial kernel
`mandelbrotSerial` on exactly those rows.

The two source files split the rows in different ways:

- `mandelbrotThread.cpp` (module `ThreadedRender`, file `threaded_render.dfy`)
  gives every worker `height / numThreads` rows. The last worker's end is
  moved to `height`, so it also takes the remainder. The ranges are
  contiguous and pairwise disjoint, and every row of `[0, height)` has exactly
  one owner. So the dispatch leaves the buffer that one kernel call over all
  rows would leave, whatever order the workers run in.
- `TestThread.cpp` (module `ThreadTest`, file `thread_test.dfy`) gives every
  worker, the last one included, exactly `height / numThreads` rows. The
  workers together cover `[0, numThreads * (height / numThreads))`, and the
  last `height % numThreads` rows keep their previous value. The same file's
  harness `testThreadCounts` resets the parallel buffer to 0, runs 2 to 8
  workers and compares the result with a serial run. The model shows that a
  run passes if and only if the serial image is 0 on every pixel of the
  uncovered tail. A failure reports the first such pixel that is not 0.

The shared parts are in module `Raster` (file `raster.dfy`):

- the argument record and its fill loop, which are identical in both files;
- the cap `MAX_THREADS`;
- the kernel's contract (`MandelbrotSerial`);
- the buffer specification functions `Painted` (the buffer after one kernel
  call over a row range) and `PaintAll` (the buffer after a sequence of such
  calls).

Threads are not modelled. A dispatch runs worker 0 and then workers
`1 .. numThreads - 1` one after another over the one output array. The
lemmas `AnyOrderMatchesSerial` and `AnyOrderMatchesCovered` show that any
other order, with every worker named at least once, gives the same buffer.
That is the property the lock-free concurrent writes rely on.

The kernel is external. It is modelled as a method that writes, for every
pixel of the rows it is given and for no other pixel, a value given by a fixed
function `pixel: (Frame, nat) -> int`. That function is a parameter of every
operation. The float region bounds are carried as `real` values and nothing
is computed with them. `exit(1)` after the cap check becomes the status
`TooManyThreads`, returned before anything is allocated or written.

## Model

| member | source | states |
|---|---|---|
| `ThreadedRender.RowRange` | prog1_mandelbrot_threads/mandelbrotThread.cpp:35-42 | a worker's range lies within `[0, height)`; worker 0 starts at row 0; with one worker the range is all of `[0, height)` |
| `ThreadedRender.RowCounts` | prog1_mandelbrot_threads/mandelbrotThread.cpp:35-47 | every worker but the last gets `height / numThreads` rows and the last gets `height / numThreads + height % numThreads`; when `height == numThreads` each worker gets exactly one row |
| `ThreadedRender.Contiguous` | prog1_mandelbrot_threads/mandelbrotThread.cpp:35-36 | worker `i`'s range ends exactly where worker `i + 1`'s begins |
| `ThreadedRender.Disjoint` | prog1_mandelbrot_threads/mandelbrotThread.cpp:35-42 | for `i < j`, worker `i`'s range lies wholly below worker `j`'s, so no two ranges overlap |
| `ThreadedRender.Owner` | prog1_mandelbrot_threads/mandelbrotThread.cpp:35-42 | every row of `[0, height)` lies in the range of some worker `0 <= i < numThreads` |
| `ThreadedRender.ExactlyOneOwner` | prog1_mandelbrot_threads/mandelbrotThread.cpp:35-42 | a worker's range holds a row if and only if that worker is the row's owner, so each row is computed exactly once |
| `ThreadedRender.AnyOrderMatchesSerial` | prog1_mandelbrot_threads/mandelbrotThread.cpp:96-105 | running the workers in any order that names each of them leaves the same buffer as one kernel call over `[0, height)` |
| `ThreadedRender.WorkerThreadStart` | prog1_mandelbrot_threads/mandelbrotThread.cpp:35-47 | the worker changes exactly the pixels of its own rows, to their escape counts |
| `ThreadedRender.MandelbrotThread` | prog1_mandelbrot_threads/mandelbrotThread.cpp:67-105 | more than 32 workers is refused with the buffer untouched; otherwise the buffer becomes what one kernel call over all rows gives |
| `ThreadedRender.RunWorkers` | prog1_mandelbrot_threads/mandelbrotThread.cpp:96-105 | running worker 0 and then workers `1 .. numThreads - 1` on the filled records leaves the buffer one kernel call over `[0, height)` gives |
| `Raster.FillArgs` | prog1_mandelbrot_threads/mandelbrotThread.cpp:79-93 | for every `i < numThreads`, record `i` gets `threadId == i`, the worker count, the shared buffer and the shared region, size and iteration cap; later records are untouched (the loop at TestThread.cpp:78-91 is the same) |
| `Raster.MandelbrotSerial` | prog1_mandelbrot_threads/mandelbrotThread.cpp:20-25 | the kernel writes the escape count of every pixel of rows `[startRow, startRow + numRows)` and changes no other pixel |
| `Raster.PaintAllAt` | prog1_mandelbrot_threads/mandelbrotThread.cpp:96-105 | after any sequence of kernel calls, a pixel holds its escape count if some call covered its row, and its prior value otherwise |
| `Raster.PaintedConcat` | prog1_mandelbrot_threads/mandelbrotThread.cpp:47 | kernel calls over two adjacent row ranges leave the same buffer as one call over their union |
| `ThreadTest.RowRange` | prog1_mandelbrot_threads/TestThread.cpp:37-38 | a worker's range lies within `[0, height)` and holds exactly `height / numThreads` rows, the last worker's included |
| `ThreadTest.CoveredEnd` | prog1_mandelbrot_threads/TestThread.cpp:37-38 | defines `numThreads * (height / numThreads)`, the end of the rows the workers cover; it is at most `height` |
| `ThreadTest.Contiguous` | prog1_mandelbrot_threads/TestThread.cpp:37-38 | worker `i`'s range ends exactly where worker `i + 1`'s begins |
| `ThreadTest.Disjoint` | prog1_mandelbrot_threads/TestThread.cpp:37-38 | for `i < j`, worker `i`'s range lies wholly below worker `j`'s |
| `ThreadTest.LastEnd` | prog1_mandelbrot_threads/TestThread.cpp:37-38 | the last worker's range ends at `numThreads * (height / numThreads)`, with no remainder adjustment |
| `ThreadTest.Owner` | prog1_mandelbrot_threads/TestThread.cpp:37-38 | every row below `numThreads * (height / numThreads)` lies in some worker's range |
| `ThreadTest.CoveredIff` | prog1_mandelbrot_threads/TestThread.cpp:37-38 | a row is in some worker's range if and only if it lies in `[0, numThreads * (height / numThreads))` |
| `ThreadTest.ExactlyOneOwner` | prog1_mandelbrot_threads/TestThread.cpp:37-38 | a covered row lies in the range of exactly one worker |
| `ThreadTest.TailSize` | prog1_mandelbrot_threads/TestThread.cpp:37-38 | the rows no worker covers number exactly `height % numThreads`, so there are none exactly when `numThreads` divides `height` |
| `ThreadTest.TailKept` | prog1_mandelbrot_threads/TestThread.cpp:37-46 | a kernel run over the covered rows leaves every pixel from row `numThreads * (height / numThreads)` on at its prior value |
| `ThreadTest.AnyOrderMatchesCovered` | prog1_mandelbrot_threads/TestThread.cpp:95-104 | running the workers in any order that names each of them leaves the buffer one kernel call over the covered rows gives; the tail keeps its prior values |
| `ThreadTest.WorkerThreadStart` | prog1_mandelbrot_threads/TestThread.cpp:37-46 | the worker changes exactly the pixels of its `height / numThreads` rows, to their escape counts |
| `ThreadTest.MandelbrotThread` | prog1_mandelbrot_threads/TestThread.cpp:66-104 | more than 32 workers is refused with the buffer untouched; otherwise the covered rows get their escape counts and every pixel from row `numThreads * (height / numThreads)` on keeps its prior value |
| `ThreadTest.RunWorkers` | prog1_mandelbrot_threads/TestThread.cpp:95-104 | running worker 0 and then workers `1 .. numThreads - 1` on the filled records leaves the buffer one kernel call over the covered rows gives |
| `ThreadTest.ResetBuffer` | prog1_mandelbrot_threads/TestThread.cpp:139 | every element of the parallel buffer is 0 before each parallel run |
| `ThreadTest.CompareOutputs` | prog1_mandelbrot_threads/TestThread.cpp:146-153 | `passed` holds if and only if the two buffers agree on all `width * height` elements; otherwise the reported index is the smallest one where they differ |
| `ThreadTest.RunAndCompare` | prog1_mandelbrot_threads/TestThread.cpp:139-153 | after the reset and the dispatch, the parallel buffer equals the serial image on the covered rows and is 0 on the uncovered tail; the verdict is a pass exactly when the serial image is 0 on that tail, and a mismatch is at the first tail pixel that is not 0 |
| `ThreadTest.TestThreadCounts` | prog1_mandelbrot_threads/TestThread.cpp:113-161 | for each worker count 2 to 8, the run passes if and only if the serial image is 0 on all uncovered tail pixels; a failure names the first tail pixel that is not 0; 2, 4 and 8 workers always pass |
| `ThreadTest.ThreeWorkersSkipLastRows` | prog1_mandelbrot_threads/TestThread.cpp:37-38 | with height 2048 and 3 workers the split covers `[0, 2046)`, and rows 2046 and 2047 belong to no worker |

## Left out

- Threads: the `std::thread` creation and the joins are not modelled. Workers run one after another, worker 0 first. The any-order lemmas stand in for the concurrent schedule.
- Timing and console output: `CycleTimer::currentSeconds`, `std::chrono` and every `std::cout`, `printf` and `fprintf` are diagnostic I/O. `TestThreadCounts` returns its verdicts instead of printing them.
- The kernel `mandelbrotSerial` and its floating-point iteration: its source is not part of this model. `Raster.MandelbrotSerial` models only its contract. It walks the pixels of its rows in linear order, whatever order the real kernel uses, and takes its values from the `pixel` parameter.
- `Raster.MandelbrotSerial`: the kernel's values are an arbitrary fixed function of the frame and the pixel index. They are not tied to the escape-time formula.
- The float region bounds are `real` values that are only passed along. Single-precision rounding is not modelled.
- `exit(1)` is modelled as the returned status `TooManyThreads`, not as process termination.
- `new`/`delete[]`: the model allocates Dafny arrays. Freeing them is not modelled, and neither is `main`.
- The `WorkerArgs` array is uninitialised in the source; the model fills it with a placeholder record before the fill loop runs.
- `numThreads <= 0`: here the source runs worker 0 on uninitialised arguments. The dispatchers require `numThreads >= 1` instead.
- Integer widths: the dispatchers require `width * height <= INT_MAX`. For such inputs the `int` and `unsigned` arithmetic of the source does not wrap, and it is modelled on unbounded integers.

## Findings

| source | as written | input that shows it | evidently intended | confidence | as-written member | corrected member |
|---|---|---|---|---|---|---|
| prog1_mandelbrot_threads/TestThread.cpp:37-38 | every worker, the last included, gets `height / numThreads` rows, so the last `height % numThreads` rows are computed by no worker | height 2048 with 3 workers, a count `testThreadCounts` runs: rows 2046 and 2047 stay 0 in the parallel buffer. The check fails wherever the serial image is not 0 there, and likewise for 5, 6 and 7 workers | the last worker also takes the remainder, as in mandelbrotThread.cpp:40-42. Then every row has exactly one owner (`ThreadedRender.ExactlyOneOwner`) and the dispatch equals the serial run (`ThreadedRender.MandelbrotThread`) | not executed; high | `ThreadTest.ThreeWorkersSkipLastRows` | `ThreadedRender.RowRange` |
