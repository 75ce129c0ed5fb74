/**
 * encode_video of vidproc/vidproc.cpp: the two size bytes, the first frame
 * run-length coded in full, and for every later frame the chunk change
 * detection, the 64-bit change mask and the pixels of the changed chunks.
 * The snapshot `previous` is a W x H array of pixels updated in place; the
 * accumulators are an array of 64 counters.
 */
module VideoEncoder {
  import opened Bits
  import opened StartStepStop
  import opened RunLength
  import opened Chunks
  import opened ChangeDetect
  import opened VidProc
  import opened VideoFormat

  /** The frame held in a snapshot array, as an image. */
  ghost function Snapshot(a: array2<bool>): (r: Image)
    reads a
    ensures |r| == a.Length0
    ensures forall y :: 0 <= y < a.Length0 ==> |r[y]| == a.Length1
    ensures forall y, x :: 0 <= y < a.Length0 && 0 <= x < a.Length1 ==> r[y][x] == a[y, x]
  {
    seq(a.Length0, y requires 0 <= y < a.Length0 reads a =>
      seq(a.Length1, x requires 0 <= x < a.Length1 reads a => a[y, x]))
  }

  /**
   * The error count and `allsame` flag of chunk (cx, cy): one pass over the
   * chunk's columns and rows comparing the new frame with the snapshot and
   * with the chunk's top-left pixel.
   */
  method ChunkStats(g: Geometry, cur: Image, prev: array2<bool>, ghost prev0: Image, cx: nat, cy: nat)
    returns (err: nat, allsame: bool)
    requires g.Valid() && IsImage(g, cur) && IsImage(g, prev0) && cx < ChunkCountX && cy < ChunkCountY
    requires prev.Length0 == g.h && prev.Length1 == g.w
    requires forall y, x :: Y0(g, cy) <= y < Y1(g, cy) && X0(g, cx) <= x < X1(g, cx) ==> prev[y, x] == prev0[y][x]
    ensures err == ChunkDiff(g, cur, prev0, cx, cy)
    ensures allsame == ChunkUniform(g, cur, cx, cy)
  {
    ChunkInside(g, cx, cy);
    var x0, x1, y0, y1 := cx * g.Cw(), Min((cx + 1) * g.Cw(), g.w), cy * g.Ch(), Min((cy + 1) * g.Ch(), g.h);
    var check := cur[y0][x0];
    allsame := true;
    err := 0;
    var x := x0;
    while x < x1
      invariant x0 <= x <= x1
      invariant err == RegionDiff(cur, prev0, x0, x, y0, y1)
      invariant allsame == forall a, b :: x0 <= a < x && y0 <= b < y1 ==> cur[b][a] == check
    {
      var d, same := ColumnStats(cur, prev, prev0, x, y0, y1, check);
      err := err + d;
      allsame := allsame && same;
      x := x + 1;
    }
  }

  /** The inner loop of the chunk comparison: one column of the chunk, y0 to y1. */
  method ColumnStats(cur: Image, prev: array2<bool>, ghost prev0: Image, x: nat, y0: nat, y1: nat, check: bool)
    returns (d: nat, same: bool)
    requires y0 <= y1 <= |cur| && y1 <= |prev0| && y1 <= prev.Length0 && x < prev.Length1
    requires forall j :: y0 <= j < y1 ==> x < |cur[j]| && x < |prev0[j]| && prev[j, x] == prev0[j][x]
    ensures d == ColDiff(cur, prev0, x, y0, y1)
    ensures same == forall b :: y0 <= b < y1 ==> cur[b][x] == check
  {
    same := true;
    d := 0;
    var y := y0;
    while y < y1
      invariant y0 <= y <= y1
      invariant d == ColDiff(cur, prev0, x, y0, y)
      invariant same == forall b :: y0 <= b < y ==> cur[b][x] == check
    {
      var c := cur[y][x];
      if c != prev[y, x] {
        d := d + 1;
      }
      if c != check {
        same := false;
      }
      y := y + 1;
    }
  }

  /** `processed(roi).copyTo(previous(roi))`: the region's pixels of the new frame overwrite the snapshot's. */
  method CopyRegion(cur: Image, prev: array2<bool>, x0: nat, x1: nat, y0: nat, y1: nat)
    requires |cur| == prev.Length0 && forall y :: 0 <= y < |cur| ==> |cur[y]| == prev.Length1
    requires x1 <= prev.Length1 && y1 <= prev.Length0
    modifies prev
    ensures forall y, x :: 0 <= y < prev.Length0 && 0 <= x < prev.Length1 ==>
      prev[y, x] == if x0 <= x < x1 && y0 <= y < y1 then cur[y][x] else old(prev[y, x])
  {
    var y := y0;
    while y < y1
      invariant y0 <= y <= y1 || (y == y0 && y1 < y0)
      invariant forall b, a :: 0 <= b < prev.Length0 && 0 <= a < prev.Length1 ==>
        prev[b, a] == if x0 <= a < x1 && y0 <= b < y then cur[b][a] else old(prev[b, a])
    {
      var x := x0;
      while x < x1
        invariant x0 <= x <= x1 || (x == x0 && x1 < x0)
        invariant forall b, a :: 0 <= b < prev.Length0 && 0 <= a < prev.Length1 ==>
          prev[b, a] == if x0 <= a < x1 && (y0 <= b < y || (b == y && x0 <= a < x)) then cur[b][a] else old(prev[b, a])
      {
        prev[y, x] := cur[y][x];
        x := x + 1;
      }
      y := y + 1;
    }
  }

  /** The mask bits of chunks 0..k-1 are set exactly for the chunks that fire, and no bit from k on. */
  ghost predicate MaskSoFar(g: Geometry, cur: Image, prev0: Image, acc0: seq<nat>, changed: nat, k: nat)
    requires g.Valid() && IsImage(g, cur) && IsImage(g, prev0) && |acc0| == ChunkCount && k <= ChunkCount
  {
    changed < Pow2(k)
    && forall j :: 0 <= j < k ==> Bit(changed, j) == ChunkFires(g, acc0, prev0, cur, j)
  }

  /** The accumulators of chunks 0..k-1 are updated, the others untouched. */
  ghost predicate AccSoFar(g: Geometry, cur: Image, prev0: Image, acc0: seq<nat>, acc: seq<nat>, k: nat)
    requires g.Valid() && IsImage(g, cur) && IsImage(g, prev0) && |acc0| == ChunkCount && k <= ChunkCount
  {
    |acc| == ChunkCount
    && (forall j :: 0 <= j < k ==> acc[j] == ChunkNextAcc(g, acc0, prev0, cur, j))
    && (forall j :: k <= j < ChunkCount ==> acc[j] == acc0[j])
  }

  /** What the snapshot holds at (x, y) once chunks 0..k-1 are done. */
  ghost function Expected(g: Geometry, cur: Image, prev0: Image, changed: nat, k: nat, x: nat, y: nat): bool
    requires g.Valid() && IsImage(g, cur) && IsImage(g, prev0) && x < g.w && y < g.h
  {
    if ChunkOf(g, x, y) < k && Bit(changed, ChunkOf(g, x, y)) then cur[y][x] else prev0[y][x]
  }

  /**
   * The detector's state after chunks 0..k-1 of a frame: their mask bits
   * and accumulators follow ChunkFires and ChunkNextAcc, later accumulators
   * are untouched, and the snapshot holds the new frame exactly in the
   * regions of the chunks sent so far.
   */
  ghost predicate Progress(g: Geometry, cur: Image, prev: array2<bool>, prev0: Image, acc: array<nat>,
                           acc0: seq<nat>, changed: nat, k: nat)
    requires g.Valid() && IsImage(g, cur) && IsImage(g, prev0) && |acc0| == ChunkCount
    reads prev, acc
  {
    k <= ChunkCount && prev.Length0 == g.h && prev.Length1 == g.w
    && MaskSoFar(g, cur, prev0, acc0, changed, k)
    && AccSoFar(g, cur, prev0, acc0, acc[..], k)
    && forall y, x :: 0 <= y < g.h && 0 <= x < g.w ==> prev[y, x] == Expected(g, cur, prev0, changed, k, x, y)
  }

  /**
   * The body of the chunk loop for chunk k = CHUNK_FOR(cx, cy): add the
   * chunk's error (and FRAME_CONST_FACTOR for a uniform chunk with a
   * nonzero accumulator); above the threshold reset the accumulator, set
   * the mask bit and copy the region into the snapshot.
   */
  method DetectChunk(g: Geometry, cur: Image, prev: array2<bool>, ghost prev0: Image, acc: array<nat>,
                     ghost acc0: seq<nat>, changed: nat, cx: nat, cy: nat) returns (changed': nat)
    requires g.Valid() && IsImage(g, cur) && IsImage(g, prev0) && |acc0| == ChunkCount
    requires cx < ChunkCountX && cy < ChunkCountY
    requires Progress(g, cur, prev, prev0, acc, acc0, changed, cx * ChunkCountY + cy)
    modifies prev, acc
    ensures Progress(g, cur, prev, prev0, acc, acc0, changed', cx * ChunkCountY + cy + 1)
  {
    var k := cx * ChunkCountY + cy;
    ChunkInside(g, cx, cy);
    forall y, x | Y0(g, cy) <= y < Y1(g, cy) && X0(g, cx) <= x < X1(g, cx)
      ensures prev[y, x] == prev0[y][x]
    {
      RegionIsChunk(g, cx, cy, x, y);
    }
    var err, allsame := ChunkStats(g, cur, prev, prev0, cx, cy);
    ghost var fired := AccStep(g, cur, prev0, acc0, cx, cy, err, allsame);
    acc[k] := acc[k] + err;
    if allsame && acc[k] != 0 {
      acc[k] := acc[k] + ConstFactor;
    }
    changed' := changed;
    if acc[k] > Threshold(g) {
      acc[k] := 0;
      changed' := SetBit(changed, k);
      CopyRegion(cur, prev, cx * g.Cw(), Min((cx + 1) * g.Cw(), g.w), cy * g.Ch(), Min((cy + 1) * g.Ch(), g.h));
    }
    assert acc[..] == old(acc[..])[k := ChunkNextAcc(g, acc0, prev0, cur, k)];
    AccSoFarStep(g, cur, prev0, acc0, old(acc[..]), k);
    MaskStep(g, cur, prev0, acc0, changed, k, changed', fired);
    forall y, x | 0 <= y < g.h && 0 <= x < g.w
      ensures prev[y, x] == Expected(g, cur, prev0, changed', k + 1, x, y)
    {
      RegionIsChunk(g, cx, cy, x, y);
      PixelStep(g, cur, prev0, changed, changed', k, x, y, old(prev[y, x]), prev[y, x]);
    }
  }

  /** The accumulator arithmetic of one chunk is ChunkFires and ChunkNextAcc. */
  lemma {:induction false} AccStep(g: Geometry, cur: Image, prev0: Image, acc0: seq<nat>, cx: nat, cy: nat, err: nat, allsame: bool)
    returns (fired: bool)
    requires g.Valid() && IsImage(g, cur) && IsImage(g, prev0) && |acc0| == ChunkCount
    requires cx < ChunkCountX && cy < ChunkCountY
    requires err == ChunkDiff(g, cur, prev0, cx, cy) && allsame == ChunkUniform(g, cur, cx, cy)
    ensures var k := cx * ChunkCountY + cy;
      var a := if allsame && acc0[k] + err != 0 then acc0[k] + err + ConstFactor else acc0[k] + err;
      fired == ChunkFires(g, acc0, prev0, cur, k) && fired == (a > Threshold(g))
      && ChunkNextAcc(g, acc0, prev0, cur, k) == if fired then 0 else a
  {
    var k := cx * ChunkCountY + cy;
    assert k / ChunkCountY == cx && k % ChunkCountY == cy;
    fired := ChunkFires(g, acc0, prev0, cur, k);
  }

  /** One more accumulator updated. */
  lemma {:induction false} AccSoFarStep(g: Geometry, cur: Image, prev0: Image, acc0: seq<nat>, acc: seq<nat>, k: nat)
    requires g.Valid() && IsImage(g, cur) && IsImage(g, prev0) && |acc0| == ChunkCount && k < ChunkCount
    requires AccSoFar(g, cur, prev0, acc0, acc, k)
    ensures AccSoFar(g, cur, prev0, acc0, acc[k := ChunkNextAcc(g, acc0, prev0, cur, k)], k + 1)
  {
  }

  /**
   * `changed_chunks |= mask` with mask = 1 << k when chunk k fires, else
   * nothing: the bits of chunks 0..k are then the firing ones.
   */
  lemma {:induction false} MaskStep(g: Geometry, cur: Image, prev0: Image, acc0: seq<nat>, changed: nat, k: nat, changed': nat, fired: bool)
    requires g.Valid() && IsImage(g, cur) && IsImage(g, prev0) && |acc0| == ChunkCount && k < ChunkCount
    requires MaskSoFar(g, cur, prev0, acc0, changed, k) && fired == ChunkFires(g, acc0, prev0, cur, k)
    requires changed' == if fired then SetBit(changed, k) else changed
    ensures MaskSoFar(g, cur, prev0, acc0, changed', k + 1)
    ensures forall j :: 0 <= j < k ==> Bit(changed', j) == Bit(changed, j)
  {
    BitAboveWidth(changed, k, k);
    forall j | 0 <= j <= k
      ensures Bit(changed', j) == (if j == k then fired else Bit(changed, j))
    {
      if fired {
        SetBitAt(changed, k, j);
      }
    }
  }

  /** One pixel of the snapshot after chunk k: copied from the new frame iff it is in chunk k and k fired. */
  lemma {:induction false} PixelStep(g: Geometry, cur: Image, prev0: Image, changed: nat, changed': nat, k: nat, x: nat, y: nat,
                  before: bool, after: bool)
    requires g.Valid() && IsImage(g, cur) && IsImage(g, prev0) && x < g.w && y < g.h && k < ChunkCount
    requires changed < Pow2(k) && forall j :: 0 <= j < k ==> Bit(changed', j) == Bit(changed, j)
    requires before == Expected(g, cur, prev0, changed, k, x, y)
    requires after == if ChunkOf(g, x, y) == k && Bit(changed', k) then cur[y][x] else before
    ensures after == Expected(g, cur, prev0, changed', k + 1, x, y)
  {
  }

  /**
   * The chunk loops of encode_video for one frame: every chunk, column of
   * chunks by column, updates its accumulator, and the chunks that fire get
   * their mask bit and their region copied into the snapshot.
   */
  method DetectChanges(g: Geometry, cur: Image, prev: array2<bool>, acc: array<nat>) returns (changed: nat)
    requires g.Valid() && IsImage(g, cur) && prev.Length0 == g.h && prev.Length1 == g.w
    requires acc.Length == ChunkCount
    modifies prev, acc
    ensures IsImage(g, old(Snapshot(prev))) && |old(acc[..])| == ChunkCount && |acc[..]| == ChunkCount
    ensures FrameStep(g, old(acc[..]), old(Snapshot(prev)), cur, changed, acc[..], Snapshot(prev))
  {
    ghost var prev0 := Snapshot(prev);
    ghost var acc0 := acc[..];
    changed := 0;
    var cx := 0;
    while cx < ChunkCountX
      invariant 0 <= cx <= ChunkCountX
      invariant Progress(g, cur, prev, prev0, acc, acc0, changed, cx * ChunkCountY)
    {
      var cy := 0;
      while cy < ChunkCountY
        invariant 0 <= cy <= ChunkCountY
        invariant Progress(g, cur, prev, prev0, acc, acc0, changed, cx * ChunkCountY + cy)
      {
        changed := DetectChunk(g, cur, prev, prev0, acc, acc0, changed, cx, cy);
        cy := cy + 1;
      }
      cx := cx + 1;
    }
    SnapshotIsCommit(g, cur, prev, prev0, changed);
  }

  /** Once every chunk is done the snapshot is the committed frame. */
  lemma {:induction false} SnapshotIsCommit(g: Geometry, cur: Image, prev: array2<bool>, prev0: Image, changed: nat)
    requires g.Valid() && IsImage(g, cur) && IsImage(g, prev0) && prev.Length0 == g.h && prev.Length1 == g.w
    requires forall y, x :: 0 <= y < g.h && 0 <= x < g.w ==>
      prev[y, x] == if ChunkOf(g, x, y) < ChunkCount && Bit(changed, ChunkOf(g, x, y)) then cur[y][x] else prev0[y][x]
    ensures Snapshot(prev) == Commit(g, changed, prev0, cur)
  {
    var s, c := Snapshot(prev), Commit(g, changed, prev0, cur);
    forall y | 0 <= y < g.h
      ensures s[y] == c[y]
    {
    }
  }

  /**
   * One frame of the change detector: the mask has a bit for exactly the
   * chunks that fire and no bit above 63, every accumulator moves to
   * ChunkNextAcc, and the snapshot becomes the committed frame.
   */
  ghost predicate FrameStep(g: Geometry, acc: seq<nat>, prev: Image, cur: Image, mask: nat, acc': seq<nat>, prev': Image)
    requires g.Valid() && IsImage(g, prev) && IsImage(g, cur) && |acc| == ChunkCount && |acc'| == ChunkCount
  {
    mask < Pow2(ChunkCount)
    && (forall j :: 0 <= j < ChunkCount ==> Bit(mask, j) == ChunkFires(g, acc, prev, cur, j))
    && (forall j :: 0 <= j < ChunkCount ==> acc'[j] == ChunkNextAcc(g, acc, prev, cur, j))
    && prev' == Commit(g, mask, prev, cur)
  }

  /**
   * The pixel loop of a later frame: column by column (EncodeColumn), the
   * visited pixels fed to a fresh run-length encoder, which flushes when it
   * goes out of scope. The bits added are the run-length code of the
   * visited pixels.
   */
  method EncodeScan(out: BitStream, g: Geometry, img: Image, mask: nat) returns (ghost runs: seq<nat>)
    requires g.Valid() && IsImage(g, img) && out.Valid()
    modifies out
    ensures out.Valid() && RunsOf(Visited(g, img, mask), runs)
    ensures out.written == old(out.written) + RleBits(Visited(g, img, mask), runs)
  {
    ScanInFrame(g, mask);
    var enc := new RunLengthEncoder(out);
    ghost var visited: seq<(nat, nat)> := [];
    var x: nat := 0;
    while x < g.w
      invariant x <= g.w && InFrame(g, visited)
      invariant visited + ScanFrom(g, mask, x, 0) == Scan(g, mask)
      invariant enc.Valid() && enc.out == out && enc.before == old(out.written)
      invariant enc.pixels == Pixels(g, img, visited)
    {
      visited := EncodeColumn(enc, g, img, mask, x, visited);
      x := x + 1;
    }
    runs := FinishScan(enc, g, img, mask, visited);
  }

  /** `encoder.finish()` once the whole scan has been fed: the runs coding the visited pixels. */
  method FinishScan(enc: RunLengthEncoder, g: Geometry, img: Image, mask: nat, ghost visited: seq<(nat, nat)>)
    returns (ghost runs: seq<nat>)
    requires g.Valid() && IsImage(g, img) && InFrame(g, visited)
    requires visited + ScanFrom(g, mask, g.w, 0) == Scan(g, mask)
    requires enc.Valid() && enc.pixels == Pixels(g, img, visited)
    modifies enc, enc.out
    ensures enc.out.Valid() && RunsOf(Visited(g, img, mask), runs)
    ensures enc.out.written == old(enc.before) + RleBits(Visited(g, img, mask), runs)
  {
    assert visited == Scan(g, mask);
    ScanBound(g, mask);
    enc.Finish();
    runs := enc.runs;
  }

  /**
   * One column of a later frame's pixel loop, top to bottom: at the top
   * row of a band whose chunk is unchanged the band is skipped (`y +=
   * CHUNK_HEIGHT - 1; continue`); every other pixel is fed to the encoder.
   * The pixels fed are the column's part of the scan.
   */
  method EncodeColumn(enc: RunLengthEncoder, g: Geometry, img: Image, mask: nat, x: nat, ghost visited: seq<(nat, nat)>)
    returns (ghost visited': seq<(nat, nat)>)
    requires g.Valid() && IsImage(g, img) && x < g.w && InFrame(g, visited)
    requires visited + ScanFrom(g, mask, x, 0) == Scan(g, mask)
    requires enc.Valid() && enc.pixels == Pixels(g, img, visited)
    modifies enc, enc.out
    ensures InFrame(g, visited') && visited' + ScanFrom(g, mask, x + 1, 0) == Scan(g, mask)
    ensures enc.Valid() && enc.before == old(enc.before) && enc.pixels == Pixels(g, img, visited')
  {
    visited' := visited;
    var y: nat := 0;
    while y < g.h
      invariant y < g.h + g.Ch() && InFrame(g, visited')
      invariant InBand(g, mask, x, y)
      invariant visited' + ScanFrom(g, mask, x, y) == Scan(g, mask)
      invariant enc.Valid() && enc.before == old(enc.before)
      invariant enc.pixels == Pixels(g, img, visited')
      decreases g.h - y
    {
      y, visited' := ColumnStep(enc, g, img, mask, x, y, visited');
    }
    ColumnEnd(g, mask, x, y);
  }

  /** One pass of the column loop: a chunk skipped, or one visited pixel fed to the encoder. */
  method ColumnStep(enc: RunLengthEncoder, g: Geometry, img: Image, mask: nat, x: nat, y: nat, ghost visited: seq<(nat, nat)>)
    returns (y': nat, ghost visited': seq<(nat, nat)>)
    requires g.Valid() && IsImage(g, img) && x < g.w && y < g.h && InFrame(g, visited)
    requires InBand(g, mask, x, y) && visited + ScanFrom(g, mask, x, y) == Scan(g, mask)
    requires enc.Valid() && enc.pixels == Pixels(g, img, visited)
    modifies enc, enc.out
    ensures y < y' < g.h + g.Ch() && InFrame(g, visited')
    ensures InBand(g, mask, x, y') && visited' + ScanFrom(g, mask, x, y') == Scan(g, mask)
    ensures enc.Valid() && enc.before == old(enc.before) && enc.pixels == Pixels(g, img, visited')
  {
    if BandTop(g, y) {
      if !Bit(mask, ChunkOf(g, x, y)) {
        SkipStep(g, mask, visited, x, y);
        return y + g.Ch(), visited;
      }
    } else {
      InBandVisible(g, mask, x, y);
    }
    visited' := VisitStep(enc, g, img, mask, x, y, visited);
    y' := y + 1;
  }

  /** A visited pixel of the column loop: fed to the encoder, and the scan moves on by one. */
  method VisitStep(enc: RunLengthEncoder, g: Geometry, img: Image, mask: nat, x: nat, y: nat, ghost visited: seq<(nat, nat)>)
    returns (ghost visited': seq<(nat, nat)>)
    requires g.Valid() && IsImage(g, img) && x < g.w && y < g.h && InFrame(g, visited) && Visible(g, mask, x, y)
    requires visited + ScanFrom(g, mask, x, y) == Scan(g, mask)
    requires enc.Valid() && enc.pixels == Pixels(g, img, visited)
    modifies enc, enc.out
    ensures InFrame(g, visited') && InBand(g, mask, x, y + 1) && visited' + ScanFrom(g, mask, x, y + 1) == Scan(g, mask)
    ensures enc.Valid() && enc.before == old(enc.before) && enc.pixels == Pixels(g, img, visited')
  {
    ScanStep(g, mask, visited, x, y);
    ScanBound(g, mask);
    EncodePixel(enc, g, img, x, y, visited);
    visited' := visited + [(x, y)];
  }

  /** `encoder.encode(frame.at<uint8_t>(y, x))`: one more visited pixel fed to the encoder. */
  method EncodePixel(enc: RunLengthEncoder, g: Geometry, img: Image, x: nat, y: nat, ghost visited: seq<(nat, nat)>)
    requires IsImage(g, img) && x < g.w && y < g.h && InFrame(g, visited) && |visited| < MaxRun
    requires enc.Valid() && enc.pixels == Pixels(g, img, visited)
    modifies enc, enc.out
    ensures InFrame(g, visited + [(x, y)])
    ensures enc.Valid() && enc.before == old(enc.before) && enc.pixels == Pixels(g, img, visited + [(x, y)])
  {
    enc.Encode(img[y][x]);
    PixelsSnoc(g, img, visited, x, y);
  }

  /** One column of the first frame's loop: every pixel, top to bottom. */
  method FirstColumn(enc: RunLengthEncoder, g: Geometry, img: Image, x: nat, ghost visited: seq<(nat, nat)>)
    returns (ghost visited': seq<(nat, nat)>)
    requires g.Valid() && IsImage(g, img) && x < g.w && InFrame(g, visited)
    requires visited + ScanFrom(g, FullMask, x, 0) == Scan(g, FullMask)
    requires enc.Valid() && enc.pixels == Pixels(g, img, visited)
    modifies enc, enc.out
    ensures InFrame(g, visited') && visited' + ScanFrom(g, FullMask, x + 1, 0) == Scan(g, FullMask)
    ensures enc.Valid() && enc.before == old(enc.before) && enc.pixels == Pixels(g, img, visited')
  {
    visited' := visited;
    var y: nat := 0;
    while y < g.h
      invariant y <= g.h && InFrame(g, visited')
      invariant visited' + ScanFrom(g, FullMask, x, y) == Scan(g, FullMask)
      invariant enc.Valid() && enc.before == old(enc.before)
      invariant enc.pixels == Pixels(g, img, visited')
    {
      y, visited' := FirstStep(enc, g, img, x, y, visited');
    }
    ColumnEnd(g, FullMask, x, y);
  }

  /** One pass of the first frame's column loop: with every chunk changed, every pixel is visited. */
  method FirstStep(enc: RunLengthEncoder, g: Geometry, img: Image, x: nat, y: nat, ghost visited: seq<(nat, nat)>)
    returns (y': nat, ghost visited': seq<(nat, nat)>)
    requires g.Valid() && IsImage(g, img) && x < g.w && y < g.h && InFrame(g, visited)
    requires visited + ScanFrom(g, FullMask, x, y) == Scan(g, FullMask)
    requires enc.Valid() && enc.pixels == Pixels(g, img, visited)
    modifies enc, enc.out
    ensures y' == y + 1 && InFrame(g, visited')
    ensures visited' + ScanFrom(g, FullMask, x, y') == Scan(g, FullMask)
    ensures enc.Valid() && enc.before == old(enc.before) && enc.pixels == Pixels(g, img, visited')
  {
    FullMaskVisible(g, x, y);
    ScanStep(g, FullMask, visited, x, y);
    ScanBound(g, FullMask);
    EncodePixel(enc, g, img, x, y, visited);
    y', visited' := y + 1, visited + [(x, y)];
  }

  /**
   * The first frame's loop: every pixel, column by column, fed to a fresh
   * run-length encoder; its scan is the one of the all-ones mask.
   */
  method EncodeFirst(out: BitStream, g: Geometry, img: Image) returns (ghost runs: seq<nat>)
    requires g.Valid() && IsImage(g, img) && out.Valid()
    modifies out
    ensures out.Valid() && RunsOf(Visited(g, img, FullMask), runs)
    ensures out.written == old(out.written) + RleBits(Visited(g, img, FullMask), runs)
  {
    var mask := FullMask;
    ScanInFrame(g, mask);
    var enc := new RunLengthEncoder(out);
    ghost var visited: seq<(nat, nat)> := [];
    var x: nat := 0;
    while x < g.w
      invariant x <= g.w && InFrame(g, visited)
      invariant visited + ScanFrom(g, mask, x, 0) == Scan(g, mask)
      invariant enc.Valid() && enc.out == out && enc.before == old(out.written)
      invariant enc.pixels == Pixels(g, img, visited)
    {
      visited := FirstColumn(enc, g, img, x, visited);
      x := x + 1;
    }
    runs := FinishScan(enc, g, img, mask, visited);
  }

  /**
   * The encoder's promise for the first n frames: frame 0 is sent whole and
   * becomes the snapshot with all accumulators at 0; every later frame k
   * moves the detector by FrameStep, giving its mask; every frame's
   * visited pixels are coded as runs[k].
   */
  ghost predicate Encoded(g: Geometry, frames: seq<Image>, n: nat, masks: seq<nat>, runs: seq<seq<nat>>,
                          snaps: seq<Image>, accs: seq<seq<nat>>)
    requires g.Valid() && AllImages(g, frames) && n <= |frames|
  {
    1 <= n && |masks| == n && |runs| == n && |snaps| == n && |accs| == n
    && FramesCoded(g, frames, masks, runs, n)
    && masks[0] == FullMask && snaps[0] == frames[0] && accs[0] == seq(ChunkCount, _ => 0)
    && (forall k :: 0 <= k < n ==> IsImage(g, snaps[k]) && |accs[k]| == ChunkCount)
    && (forall k :: 1 <= k < n ==>
          FrameStep(g, accs[k - 1], snaps[k - 1], frames[k], masks[k], accs[k], snaps[k]))
  }

  /**
   * The body of encode_video's frame loop for one later frame: detect the
   * changed chunks, write the 64 mask bits (bit 63 first), and when some
   * chunk changed, the pixels of the changed chunks.
   */
  method EncodeFrame(outBits: BitStream, g: Geometry, processed: Image, previous: array2<bool>, acc: array<nat>)
    returns (changed: nat, ghost runs: seq<nat>)
    requires g.Valid() && IsImage(g, processed) && outBits.Valid()
    requires previous.Length0 == g.h && previous.Length1 == g.w && acc.Length == ChunkCount
    modifies outBits, previous, acc
    ensures IsImage(g, old(Snapshot(previous))) && |old(acc[..])| == ChunkCount && |acc[..]| == ChunkCount
    ensures FrameStep(g, old(acc[..]), old(Snapshot(previous)), processed, changed, acc[..], Snapshot(previous))
    ensures outBits.Valid() && RunsOf(Visited(g, processed, changed), runs)
    ensures outBits.written == old(outBits.written) + MaskBits(changed) + RleBits(Visited(g, processed, changed), runs)
  {
    changed := DetectChanges(g, processed, previous, acc);
    outBits.WriteValue(changed, ChunkCount);
    runs := [];
    if changed != 0 {
      runs := EncodeScan(outBits, g, processed, changed);
    } else {
      EmptyMask(g);
    }
  }

  /** The snapshot array made from an image holds that image. */
  lemma {:induction false} SnapshotOf(a: array2<bool>, g: Geometry, img: Image)
    requires IsImage(g, img) && a.Length0 == g.h && a.Length1 == g.w
    requires forall y, x :: 0 <= y < g.h && 0 <= x < g.w ==> a[y, x] == img[y][x]
    ensures Snapshot(a) == img
  {
    var s := Snapshot(a);
    forall y | 0 <= y < g.h
      ensures s[y] == img[y]
    {
    }
  }

  /** The encoder's promise after frame 0. */
  lemma {:induction false} EncodedFirst(g: Geometry, frames: seq<Image>, r0: seq<nat>, acc0: seq<nat>)
    requires g.Valid() && AllImages(g, frames) && frames != []
    requires RunsOf(Visited(g, frames[0], FullMask), r0) && acc0 == seq(ChunkCount, _ => 0)
    ensures Encoded(g, frames, 1, [FullMask], [r0], [frames[0]], [acc0])
    ensures StreamBits(g, frames, [FullMask], [r0], 1) == RleBits(Visited(g, frames[0], FullMask), r0)
  {
  }

  /** The encoder's promise extends by one frame. */
  lemma {:induction false} EncodedNext(g: Geometry, frames: seq<Image>, n: nat, masks: seq<nat>, runs: seq<seq<nat>>,
                    snaps: seq<Image>, accs: seq<seq<nat>>, mask: nat, r: seq<nat>, snap: Image, acc: seq<nat>)
    requires g.Valid() && AllImages(g, frames) && n < |frames|
    requires Encoded(g, frames, n, masks, runs, snaps, accs)
    requires IsImage(g, snap) && |acc| == ChunkCount
    requires FrameStep(g, accs[n - 1], snaps[n - 1], frames[n], mask, acc, snap)
    requires RunsOf(Visited(g, frames[n], mask), r)
    ensures Encoded(g, frames, n + 1, masks + [mask], runs + [r], snaps + [snap], accs + [acc])
    ensures StreamBits(g, frames, masks + [mask], runs + [r], n + 1)
      == StreamBits(g, frames, masks, runs, n) + MaskBits(mask) + RleBits(Visited(g, frames[n], mask), r)
  {
    var masks', runs' := masks + [mask], runs + [r];
    assert FramesCoded(g, frames, masks', runs', n + 1);
    assert forall k :: 0 <= k < n ==> masks[k] == masks'[k] && runs[k] == runs'[k];
    StreamBitsPrefix(g, frames, masks, runs, masks', runs', n);
  }

  /** The bits of the first n frames depend only on the first n masks and runs. */
  lemma {:induction false} StreamBitsPrefix(g: Geometry, frames: seq<Image>, masks: seq<nat>, runs: seq<seq<nat>>,
                                            masks': seq<nat>, runs': seq<seq<nat>>, n: nat)
    requires 1 <= n && FramesCoded(g, frames, masks, runs, n) && FramesCoded(g, frames, masks', runs', n)
    requires forall k :: 0 <= k < n ==> masks[k] == masks'[k] && runs[k] == runs'[k]
    ensures StreamBits(g, frames, masks, runs, n) == StreamBits(g, frames, masks', runs', n)
  {
    assert masks[n - 1] == masks'[n - 1] && runs[n - 1] == runs'[n - 1];
    if n > 1 {
      StreamBitsPrefix(g, frames, masks, runs, masks', runs', n - 1);
    }
  }

  /**
   * encode_video: nothing is written when there is no frame; otherwise the
   * two size bytes, then the bit stream of frames 0..n-1 where n stops at
   * the last frame or after frame_limit, padded to a byte boundary by the
   * bit writer's destructor.
   */
  method EncodeVideo(g: Geometry, frames: seq<Image>, frameLimit: nat)
    returns (data: seq<Byte>, ghost n: nat, ghost masks: seq<nat>, ghost runs: seq<seq<nat>>,
             ghost snaps: seq<Image>, ghost accs: seq<seq<nat>>, ghost pad: nat)
    requires g.Valid() && AllImages(g, frames)
    ensures frames == [] ==> data == []
    ensures frames != [] ==>
      n == Min(|frames|, frameLimit + 1) && Encoded(g, frames, n, masks, runs, snaps, accs)
      && |data| >= 3 && data[0] == g.w && data[1] == g.h && 1 <= pad <= 8
      && BitsOfBytes(data[2..]) == StreamBits(g, frames, masks, runs, n) + Zeros(pad)
  {
    if frames == [] {
      return [], 0, [], [], [], [], 0;
    }
    var img := frames[0];
    var outBits := new BitStream();
    ghost var r0 := EncodeFirst(outBits, g, img);
    var previous := new bool[g.h, g.w]((y, x) requires 0 <= y < g.h && 0 <= x < g.w => img[y][x]);
    var acc := new nat[ChunkCount](_ => 0);
    SnapshotOf(previous, g, img);
    EncodedFirst(g, frames, r0, acc[..]);
    masks, runs, snaps, accs := [FullMask], [r0], [img], [acc[..]];
    var count := 1;
    while true
      invariant 1 <= count <= |frames| && count <= frameLimit + 1
      invariant Encoded(g, frames, count, masks, runs, snaps, accs)
      invariant snaps[count - 1] == Snapshot(previous) && accs[count - 1] == acc[..]
      invariant outBits.Valid() && outBits.written == StreamBits(g, frames, masks, runs, count)
      decreases |frames| - count
    {
      if count > frameLimit {
        break;
      }
      if count >= |frames| {
        break;
      }
      var processed := frames[count];
      var changed;
      ghost var r;
      changed, r := EncodeFrame(outBits, g, processed, previous, acc);
      EncodedNext(g, frames, count, masks, runs, snaps, accs, changed, r, Snapshot(previous), acc[..]);
      masks, runs, snaps, accs := masks + [changed], runs + [r], snaps + [Snapshot(previous)], accs + [acc[..]];
      count := count + 1;
    }
    n := count;
    data, pad := Package(g, outBits);
  }

  /**
   * The file: the width and height bytes, then the bytes of the bit stream
   * once its last byte is padded with 0 bits.
   */
  method Package(g: Geometry, outBits: BitStream) returns (data: seq<Byte>, ghost pad: nat)
    requires g.Valid() && outBits.Valid()
    modifies outBits
    ensures |data| >= 3 && data[0] == g.w && data[1] == g.h && 1 <= pad <= 8
    ensures BitsOfBytes(data[2..]) == old(outBits.written) + Zeros(pad)
  {
    pad := 8 - outBits.count;
    outBits.Finish();
    var width: Byte, height: Byte := g.w, g.h;
    data := [width, height] + outBits.bytes;
    assert data[2..] == outBits.bytes;
  }
}
