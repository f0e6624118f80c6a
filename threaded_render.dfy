/** `mandelbrotThread.cpp`: static row partitioning in which every worker gets
    `height / numThreads` rows and the last one also takes the remainder.
    Threads are replaced by a sequential run of the workers, worker 0 first;
    the lemmas show that the ranges are disjoint and cover `[0, height)`, so
    the order of the workers does not matter. */
module ThreadedRender {
  import opened Raster

  /** The rows of worker `threadId` (`workerThreadStart`): `threadId` blocks
      of `height / numThreads` rows precede it, and the last worker's end is
      moved to `height`. */
  function RowRange(height: nat, numThreads: int, threadId: int): (r: Rows)
    requires 0 <= threadId < numThreads
    ensures 0 <= r.start <= r.end <= height
    ensures threadId == 0 ==> r.start == 0
    ensures numThreads == 1 ==> r == Rows(0, height)
  {
    var rowsPerThread := height / numThreads;
    var start := threadId * rowsPerThread;
    var end := if threadId == numThreads - 1 then height else start + rowsPerThread;
    DivSplit(height, numThreads);
    MulMono(threadId, numThreads - 1, rowsPerThread);
    MulMono(threadId + 1, numThreads, rowsPerThread);
    Rows(start, end)
  }

  /** Every worker but the last gets `height / numThreads` rows; the last one
      gets those plus the remainder `height % numThreads`. */
  lemma RowCounts(height: nat, numThreads: int, threadId: int)
    requires 0 <= threadId < numThreads
    ensures RowRange(height, numThreads, threadId).Count() ==
      if threadId < numThreads - 1 then height / numThreads
      else height / numThreads + height % numThreads
    ensures height == numThreads ==> RowRange(height, numThreads, threadId).Count() == 1
  {
    DivSplit(height, numThreads);
    if threadId == numThreads - 1 {
      assert threadId * (height / numThreads) + height / numThreads == numThreads * (height / numThreads);
    }
  }

  /** Each worker's range ends where the next one's starts. */
  lemma Contiguous(height: nat, numThreads: int, threadId: int)
    requires 0 <= threadId < numThreads - 1
    ensures RowRange(height, numThreads, threadId).end == RowRange(height, numThreads, threadId + 1).start
  {
  }

  /** The ranges of two different workers are disjoint; the lower worker's
      range lies wholly below the higher one's. */
  lemma {:induction false} Disjoint(height: nat, numThreads: int, i: int, j: int)
    requires 0 <= i < j < numThreads
    ensures RowRange(height, numThreads, i).end <= RowRange(height, numThreads, j).start
    decreases j - i
  {
    Contiguous(height, numThreads, j - 1);
    if i < j - 1 {
      Disjoint(height, numThreads, i, j - 1);
    }
  }

  /** The worker whose range holds `row`. */
  function Owner(height: nat, numThreads: int, row: int): (i: int)
    requires 1 <= numThreads && 0 <= row < height
    ensures 0 <= i < numThreads && RowRange(height, numThreads, i).Contains(row)
  {
    var q := height / numThreads;
    var i := if q == 0 || row / q >= numThreads - 1 then numThreads - 1 else row / q;
    OwnerHolds(height, numThreads, row, i);
    i
  }

  lemma OwnerHolds(height: nat, numThreads: int, row: int, i: int)
    requires 1 <= numThreads && 0 <= row < height
    requires var q := height / numThreads;
      i == if q == 0 || row / q >= numThreads - 1 then numThreads - 1 else row / q
    ensures 0 <= i < numThreads && RowRange(height, numThreads, i).Contains(row)
  {
    var q := height / numThreads;
    if q == 0 {
      assert RowRange(height, numThreads, i) == Rows(0, height);
    } else {
      DivBounds(row, q);
      if row / q >= numThreads - 1 {
        MulMono(numThreads - 1, row / q, q);
        assert RowRange(height, numThreads, i) == Rows((numThreads - 1) * q, height);
      } else {
        assert RowRange(height, numThreads, i) == Rows((row / q) * q, (row / q) * q + q);
      }
    }
  }

  /** Every row of the image belongs to exactly one worker: a worker's range
      holds `row` if and only if that worker is its owner. */
  lemma ExactlyOneOwner(height: nat, numThreads: int, row: int, i: int)
    requires 0 <= i < numThreads && 0 <= row < height
    ensures RowRange(height, numThreads, i).Contains(row) <==> i == Owner(height, numThreads, row)
  {
    var o := Owner(height, numThreads, row);
    if i < o {
      Disjoint(height, numThreads, i, o);
    } else if o < i {
      Disjoint(height, numThreads, o, i);
    }
  }

  /** The row ranges of the workers named in `order`, in that order. */
  function Schedule(height: nat, numThreads: int, order: seq<int>): (jobs: seq<Rows>)
    requires forall j :: 0 <= j < |order| ==> 0 <= order[j] < numThreads
    ensures |jobs| == |order|
  {
    seq(|order|, j requires 0 <= j < |order| => RowRange(height, numThreads, order[j]))
  }

  /** Running the workers one after another in ANY order that names each of
      them at least once leaves the same buffer as one kernel call over all
      rows `[0, height)`. */
  lemma AnyOrderMatchesSerial(buf: seq<int>, pixel: PixelFn, frame: Frame, numThreads: int, order: seq<int>)
    requires |buf| == frame.width * frame.height && 1 <= numThreads
    requires forall j :: 0 <= j < |order| ==> 0 <= order[j] < numThreads
    requires forall i :: 0 <= i < numThreads ==> i in order
    ensures PaintAll(buf, pixel, frame, Schedule(frame.height, numThreads, order))
         == Painted(buf, pixel, frame, Rows(0, frame.height))
  {
    var jobs := Schedule(frame.height, numThreads, order);
    var all := Painted(buf, pixel, frame, Rows(0, frame.height));
    forall k | 0 <= k < |buf|
      ensures PaintAll(buf, pixel, frame, jobs)[k] == all[k]
    {
      PaintAllAt(buf, pixel, frame, jobs, k);
      PixelCovered(frame, numThreads, order, k);
      PixelRow(k, frame.width, frame.height, Rows(0, frame.height));
    }
  }

  /** Some worker named in `order` covers pixel `k`. */
  lemma PixelCovered(frame: Frame, numThreads: int, order: seq<int>, k: int)
    requires 0 <= k < frame.width * frame.height && 1 <= numThreads
    requires forall j :: 0 <= j < |order| ==> 0 <= order[j] < numThreads
    requires forall i :: 0 <= i < numThreads ==> i in order
    ensures exists j :: 0 <= j < |order| && InRows(frame.width, Schedule(frame.height, numThreads, order)[j], k)
  {
    var jobs := Schedule(frame.height, numThreads, order);
    PixelRow(k, frame.width, frame.height, Rows(0, 0));
    var o := Owner(frame.height, numThreads, k / frame.width);
    assert o in order;
    var j :| 0 <= j < |order| && order[j] == o;
    PixelRow(k, frame.width, frame.height, jobs[j]);
  }

  /** Once workers `0 .. i - 1` have run, running worker `i` extends the
      computed prefix of rows to the end of worker `i`'s range. */
  lemma ExtendPrefix(buf: seq<int>, done: seq<int>, pixel: PixelFn, frame: Frame, numThreads: int, i: int)
    requires 1 <= i < numThreads
    requires done == Painted(buf, pixel, frame, Rows(0, RowRange(frame.height, numThreads, i - 1).end))
    ensures Painted(done, pixel, frame, RowRange(frame.height, numThreads, i))
         == Painted(buf, pixel, frame, Rows(0, RowRange(frame.height, numThreads, i).end))
  {
    Contiguous(frame.height, numThreads, i - 1);
    PaintedConcat(buf, pixel, frame, 0, RowRange(frame.height, numThreads, i - 1).end,
                  RowRange(frame.height, numThreads, i).end);
  }

  /** `workerThreadStart`: computes the worker's rows and calls the kernel on
      exactly those (the timing and console report are left out). */
  method WorkerThreadStart(pixel: PixelFn, args: WorkerArgs)
    requires 0 <= args.threadId < args.numThreads
    requires args.output.Length == args.width * args.height
    modifies args.output
    ensures args.output[..] == Painted(old(args.output[..]), pixel, args.ToFrame(),
                                       RowRange(args.height, args.numThreads, args.threadId))
  {
    var rows := RowRange(args.height, args.numThreads, args.threadId);
    MandelbrotSerial(pixel, args.ToFrame(), rows.start, rows.end - rows.start, args.output);
  }

  /** `mandelbrotThread`: refuses more than `MAX_THREADS` workers before
      touching anything, fills one argument record per worker, runs worker 0
      and then workers 1 .. numThreads - 1 over the shared buffer. The result
      is the buffer one kernel call over every row would give. */
  method MandelbrotThread(pixel: PixelFn, numThreads: int, region: Region,
                          width: nat, height: nat, maxIterations: int, output: array<int>)
      returns (status: Status)
    requires 1 <= numThreads
    requires output.Length == width * height <= INT_MAX
    modifies output
    ensures status == TooManyThreads <==> numThreads > MAX_THREADS
    ensures status == TooManyThreads ==> output[..] == old(output[..])
    ensures status == Done ==>
      output[..] == Painted(old(output[..]), pixel, Frame(region, width, height, maxIterations), Rows(0, height))
  {
    if numThreads > MAX_THREADS {
      return TooManyThreads;
    }
    // `mandelbrotThread`'s `args` array is uninitialised; its entries get a placeholder.
    var args := new WorkerArgs[MAX_THREADS](_ => WorkerArgs(0.0, 0.0, 0.0, 0.0, 0, 0, 0, output, 0, 0));
    FillArgs(args, numThreads, region, width, height, maxIterations, output);
    RunWorkers(pixel, args, numThreads, region, width, height, maxIterations, output);
    status := Done;
  }

  /** The spawn, inline-run and join loops of `mandelbrotThread`, run one
      after another: worker 0, then workers 1 .. numThreads - 1, each on the
      record the fill loop built for it. */
  method RunWorkers(pixel: PixelFn, args: array<WorkerArgs>, numThreads: int, region: Region,
                    width: nat, height: nat, maxIterations: int, output: array<int>)
    requires 1 <= numThreads <= args.Length
    requires output.Length == width * height
    requires forall i :: 0 <= i < numThreads ==>
      args[i] == WorkerArgs(region.x0, region.x1, region.y0, region.y1, width, height,
                            maxIterations, output, i, numThreads)
    modifies output
    ensures output[..] == Painted(old(output[..]), pixel, Frame(region, width, height, maxIterations), Rows(0, height))
  {
    ghost var frame := Frame(region, width, height, maxIterations);
    WorkerThreadStart(pixel, args[0]);
    for i := 1 to numThreads
      modifies output
      invariant output[..] == Painted(old(output[..]), pixel, frame, Rows(0, RowRange(height, numThreads, i - 1).end))
    {
      ghost var before := output[..];
      WorkerThreadStart(pixel, args[i]);
      ExtendPrefix(old(output[..]), before, pixel, frame, numThreads, i);
    }
  }
}
