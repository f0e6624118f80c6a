/** What both dispatchers share: the worker-argument record, the cap on the
    worker count, the per-pixel kernel `mandelbrotSerial` they call on a row
    range, and the row-major output buffer it writes. */
module Raster {

  /** Hard cap on the worker count (`MAX_THREADS` in both dispatchers). */
  const MAX_THREADS: int := 32

  /** Largest value of a 32-bit C `int`; row numbers and linear pixel
      indices are held in one. */
  const INT_MAX: int := 0x7fff_ffff

  /** The four bounds of the rectangle of the complex plane. The model only
      carries them to the kernel; no floating-point arithmetic is modelled. */
  datatype Region = Region(x0: real, y0: real, x1: real, y1: real)

  /** The read-only inputs every kernel call shares. */
  datatype Frame = Frame(region: Region, width: nat, height: nat, maxIterations: int)

  /** The escape-iteration count the kernel stores at a linear pixel index:
      a fixed, deterministic function of the frame and the index. */
  type PixelFn = (Frame, nat) -> int

  /** The record each worker receives (`WorkerArgs`, declared identically in
      both source files); `output` is the shared buffer, which every record
      points to. */
  datatype WorkerArgs = WorkerArgs(
    x0: real, x1: real, y0: real, y1: real,
    width: nat, height: nat,
    maxIterations: int,
    output: array<int>,
    threadId: int,
    numThreads: int)
  {
    function ToFrame(): Frame {
      Frame(Region(x0, y0, x1, y1), width, height, maxIterations)
    }
  }

  /** Outcome of a dispatch: it ran, or it was refused by the cap check
      (where the source prints an error and calls `exit(1)`). */
  datatype Status = Done | TooManyThreads

  /** The half-open row range `[start, end)`. */
  datatype Rows = Rows(start: int, end: int) {
    predicate Contains(row: int) { start <= row < end }
    function Count(): int { end - start }
  }

  /** Linear pixel `k` of a raster `width` pixels wide lies in `rows`. */
  predicate InRows(width: nat, rows: Rows, k: int) {
    rows.start * width <= k < rows.end * width
  }

  /** The buffer after one kernel call over `rows`: the pixels of those rows
      hold their escape counts, every other pixel is as in `buf`. */
  function Painted(buf: seq<int>, pixel: PixelFn, frame: Frame, rows: Rows): seq<int> {
    seq(|buf|, k requires 0 <= k < |buf| =>
      if InRows(frame.width, rows, k) then pixel(frame, k) else buf[k])
  }

  /** The buffer after kernel calls over each of `jobs`, in that order. */
  function PaintAll(buf: seq<int>, pixel: PixelFn, frame: Frame, jobs: seq<Rows>): (r: seq<int>)
    ensures |r| == |buf|
    decreases |jobs|
  {
    if jobs == [] then buf
    else PaintAll(Painted(buf, pixel, frame, jobs[0]), pixel, frame, jobs[1..])
  }

  /** Whatever the order of the calls, a pixel ends up holding its escape
      count exactly when some call covers its row, and keeps its prior value
      otherwise. */
  lemma {:induction false} PaintAllAt(buf: seq<int>, pixel: PixelFn, frame: Frame, jobs: seq<Rows>, k: int)
    requires 0 <= k < |buf|
    ensures PaintAll(buf, pixel, frame, jobs)[k] ==
      if exists j :: 0 <= j < |jobs| && InRows(frame.width, jobs[j], k)
      then pixel(frame, k) else buf[k]
    decreases |jobs|
  {
    if jobs != [] {
      var next := Painted(buf, pixel, frame, jobs[0]);
      PaintAllAt(next, pixel, frame, jobs[1..], k);
      if exists j :: 0 <= j < |jobs[1..]| && InRows(frame.width, jobs[1..][j], k) {
        var j :| 0 <= j < |jobs[1..]| && InRows(frame.width, jobs[1..][j], k);
        assert InRows(frame.width, jobs[j + 1], k);
      } else if !InRows(frame.width, jobs[0], k) {
        forall j | 0 <= j < |jobs| ensures !InRows(frame.width, jobs[j], k) {
          if j > 0 { assert jobs[j] == jobs[1..][j - 1]; }
        }
      }
    }
  }

  /** Two kernel calls over adjacent ranges leave the same buffer as one
      call over their union. */
  lemma PaintedConcat(buf: seq<int>, pixel: PixelFn, frame: Frame, lo: int, mid: int, hi: int)
    requires lo <= mid <= hi
    ensures Painted(Painted(buf, pixel, frame, Rows(lo, mid)), pixel, frame, Rows(mid, hi))
         == Painted(buf, pixel, frame, Rows(lo, hi))
  {
    MulMono(lo, mid, frame.width);
    MulMono(mid, hi, frame.width);
    var once := Painted(buf, pixel, frame, Rows(lo, hi));
    var twice := Painted(Painted(buf, pixel, frame, Rows(lo, mid)), pixel, frame, Rows(mid, hi));
    assert |twice| == |once|;
    forall k | 0 <= k < |once| ensures twice[k] == once[k] {
      var inner := Painted(buf, pixel, frame, Rows(lo, mid));
      assert inner[k] == if InRows(frame.width, Rows(lo, mid), k) then pixel(frame, k) else buf[k];
      assert twice[k] == if InRows(frame.width, Rows(mid, hi), k) then pixel(frame, k) else inner[k];
      assert once[k] == if InRows(frame.width, Rows(lo, hi), k) then pixel(frame, k) else buf[k];
    }
  }

  /** The kernel `mandelbrotSerial`: writes the escape count of every pixel
      of rows `[startRow, startRow + numRows)` and nothing else. */
  method MandelbrotSerial(pixel: PixelFn, frame: Frame, startRow: int, numRows: int, output: array<int>)
    requires 0 <= startRow && 0 <= numRows && startRow + numRows <= frame.height
    requires output.Length == frame.width * frame.height
    modifies output
    ensures output[..] == Painted(old(output[..]), pixel, frame, Rows(startRow, startRow + numRows))
  {
    var w := frame.width;
    var first, last := startRow * w, (startRow + numRows) * w;
    KernelSpan(startRow, numRows, w, frame.height);
    var k := first;
    while k < last
      invariant first <= k <= last
      invariant forall m :: 0 <= m < output.Length ==>
        output[m] == if first <= m < k then pixel(frame, m) else old(output[m])
    {
      output[k] := pixel(frame, k);
      k := k + 1;
    }
    ghost var expected := Painted(old(output[..]), pixel, frame, Rows(startRow, startRow + numRows));
    forall m | 0 <= m < output.Length ensures output[..][m] == expected[m] {
      assert InRows(w, Rows(startRow, startRow + numRows), m) <==> first <= m < last;
    }
  }

  /** The argument-filling loop of `mandelbrotThread` (the same in both files): entry `i` of `args`,
      for every `i < numThreads`, gets the shared parameters, the shared
      buffer, the worker count and `threadId == i`; the other entries are
      left as they were. */
  method FillArgs(args: array<WorkerArgs>, numThreads: int, region: Region,
                  width: nat, height: nat, maxIterations: int, output: array<int>)
    requires numThreads <= args.Length
    modifies args
    ensures forall i :: 0 <= i < numThreads ==>
      args[i] == WorkerArgs(region.x0, region.x1, region.y0, region.y1, width, height,
                            maxIterations, output, i, numThreads)
    ensures forall i :: 0 <= i < args.Length && numThreads <= i ==> args[i] == old(args[i])
  {
    for i := 0 to if numThreads < 0 then 0 else numThreads
      invariant forall m :: 0 <= m < i ==>
        args[m] == WorkerArgs(region.x0, region.x1, region.y0, region.y1, width, height,
                              maxIterations, output, m, numThreads)
      invariant forall m :: i <= m < args.Length ==> args[m] == old(args[m])
    {
      args[i] := WorkerArgs(region.x0, region.x1, region.y0, region.y1, width, height,
                            maxIterations, output, i, numThreads);
    }
  }

  /** A pixel of a `width * height` raster lies in a row below `height`,
      and in every row range that holds that row. */
  lemma PixelRow(k: int, width: nat, height: nat, rows: Rows)
    requires 0 <= k < width * height
    ensures width > 0 && 0 <= k / width < height
    ensures rows.Contains(k / width) ==> InRows(width, rows, k)
  {
    MulPositive(width, height);
    var row := k / width;
    DivBounds(k, width);
    if row >= height {
      MulMono(height, row, width);
    }
    if rows.Contains(row) {
      MulMono(rows.start, row, width);
      MulMono(row + 1, rows.end, width);
    }
  }

  lemma MulPositive(a: nat, b: nat)
    requires a * b > 0
    ensures a > 0
  {
  }

  lemma DivBounds(k: int, w: int)
    requires 0 <= k && 0 < w
    ensures 0 <= k / w && (k / w) * w <= k < (k / w) * w + w
  {
    assert k == w * (k / w) + k % w;
  }

  /** The pixels of rows `[s, s + n)` of a `w * h` raster lie inside it. */
  lemma KernelSpan(s: int, n: int, w: nat, h: nat)
    requires 0 <= s && 0 <= n && s + n <= h
    ensures 0 <= s * w <= (s + n) * w <= w * h
  {
    MulMono(0, s, w);
    MulMono(s, s + n, w);
    MulMono(s + n, h, w);
  }

  lemma MulMono(a: int, b: int, c: nat)
    requires a <= b
    ensures a * c <= b * c
  {
  }

  /** `h` splits into `n` blocks of `h / n` rows and a remainder of `h % n`. */
  lemma DivSplit(h: nat, n: int)
    requires 1 <= n
    ensures n * (h / n) + h % n == h
    ensures 0 <= n * (h / n) <= h
  {
  }
}
