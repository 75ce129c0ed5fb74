/**
 * The chunk change detector of encode_video (vidproc/vidproc.cpp:197-228):
 * every chunk keeps an error accumulator; each frame adds the number of
 * pixels that differ from the committed snapshot, plus FRAME_CONST_FACTOR
 * when the chunk is uniform and the accumulator is nonzero; when the
 * accumulator exceeds FRAME_DIFF_PCT percent of the chunk area the chunk is
 * sent (its mask bit is set), the accumulator restarts at 0 and the chunk's
 * region of the snapshot is overwritten with the new frame.
 */
module ChangeDetect {
  import opened Chunks

  /** FRAME_DIFF_PCT of vidproc/common.h. */
  const DiffPct: nat := 8
  /** FRAME_CONST_FACTOR of vidproc/common.h. */
  const ConstFactor: nat := 5

  /** First column of chunk column cx. */
  function X0(g: Geometry, cx: nat): nat
    requires g.w >= 1
  {
    cx * g.Cw()
  }

  /** One past the last column of chunk column cx: `min((cx + 1) * CHUNK_WIDTH, fwidth)`. */
  function X1(g: Geometry, cx: nat): nat
    requires g.w >= 1
  {
    Min((cx + 1) * g.Cw(), g.w)
  }

  function Y0(g: Geometry, cy: nat): nat
    requires g.h >= 1
  {
    cy * g.Ch()
  }

  function Y1(g: Geometry, cy: nat): nat
    requires g.h >= 1
  {
    Min((cy + 1) * g.Ch(), g.h)
  }

  /** The accumulator limit `(CHUNK_WIDTH * CHUNK_HEIGHT * FRAME_DIFF_PCT) / 100`. */
  function Threshold(g: Geometry): nat
    requires g.w >= 1 && g.h >= 1
  {
    g.Cw() * g.Ch() * DiffPct / 100
  }

  /** Differing pixels of column x in rows [y0, y). */
  function ColDiff(cur: Image, prev: Image, x: nat, y0: nat, y: nat): nat
    requires y <= |cur| && y <= |prev|
    requires forall j :: y0 <= j < y ==> x < |cur[j]| && x < |prev[j]|
    decreases y
  {
    if y <= y0 then 0
    else ColDiff(cur, prev, x, y0, y - 1) + (if cur[y - 1][x] != prev[y - 1][x] then 1 else 0)
  }

  /** Differing pixels in columns [x0, x) and rows [y0, y1). */
  function RegionDiff(cur: Image, prev: Image, x0: nat, x: nat, y0: nat, y1: nat): nat
    requires y1 <= |cur| && y1 <= |prev|
    requires forall j :: y0 <= j < y1 ==> x <= |cur[j]| && x <= |prev[j]|
    decreases x
  {
    if x <= x0 then 0
    else RegionDiff(cur, prev, x0, x - 1, y0, y1) + ColDiff(cur, prev, x - 1, y0, y1)
  }

  /** Every pixel of the region has the colour of its top-left pixel. */
  predicate Uniform(cur: Image, x0: nat, x1: nat, y0: nat, y1: nat)
    requires y0 < y1 <= |cur| && forall j :: y0 <= j < y1 ==> x0 < x1 <= |cur[j]|
  {
    forall x, y :: x0 <= x < x1 && y0 <= y < y1 ==> cur[y][x] == cur[y0][x0]
  }

  /** A chunk's error this frame: its pixels that differ from the snapshot. */
  function ChunkDiff(g: Geometry, cur: Image, prev: Image, cx: nat, cy: nat): nat
    requires g.Valid() && IsImage(g, cur) && IsImage(g, prev) && cx < ChunkCountX && cy < ChunkCountY
  {
    ChunkInside(g, cx, cy);
    RegionDiff(cur, prev, X0(g, cx), X1(g, cx), Y0(g, cy), Y1(g, cy))
  }

  /** The chunk is a single colour in the new frame (`allsame`). */
  predicate ChunkUniform(g: Geometry, cur: Image, cx: nat, cy: nat)
    requires g.Valid() && IsImage(g, cur) && cx < ChunkCountX && cy < ChunkCountY
  {
    ChunkInside(g, cx, cy);
    Uniform(cur, X0(g, cx), X1(g, cx), Y0(g, cy), Y1(g, cy))
  }

  /** The accumulator after this frame's error is added. */
  function Accumulate(acc: nat, err: nat, uniform: bool): nat
  {
    var a := acc + err;
    if uniform && a != 0 then a + ConstFactor else a
  }

  /** The chunk is sent this frame. */
  predicate Fires(g: Geometry, acc: nat, err: nat, uniform: bool)
    requires g.w >= 1 && g.h >= 1
  {
    Accumulate(acc, err, uniform) > Threshold(g)
  }

  /** The accumulator kept for the next frame. */
  function NextAcc(g: Geometry, acc: nat, err: nat, uniform: bool): nat
    requires g.w >= 1 && g.h >= 1
  {
    if Fires(g, acc, err, uniform) then 0 else Accumulate(acc, err, uniform)
  }

  /** Chunk k = CHUNK_FOR(k / 8, k % 8) is sent this frame, given the accumulators before it. */
  predicate ChunkFires(g: Geometry, acc: seq<nat>, prev: Image, cur: Image, k: nat)
    requires g.Valid() && IsImage(g, cur) && IsImage(g, prev) && |acc| == ChunkCount && k < ChunkCount
  {
    Fires(g, acc[k], ChunkDiff(g, cur, prev, k / ChunkCountY, k % ChunkCountY),
          ChunkUniform(g, cur, k / ChunkCountY, k % ChunkCountY))
  }

  /** Chunk k's accumulator after this frame. */
  function ChunkNextAcc(g: Geometry, acc: seq<nat>, prev: Image, cur: Image, k: nat): nat
    requires g.Valid() && IsImage(g, cur) && IsImage(g, prev) && |acc| == ChunkCount && k < ChunkCount
  {
    NextAcc(g, acc[k], ChunkDiff(g, cur, prev, k / ChunkCountY, k % ChunkCountY),
            ChunkUniform(g, cur, k / ChunkCountY, k % ChunkCountY))
  }

  /**
   * The snapshot after a frame whose changed chunks are `mask`: the pixels of
   * changed chunks come from the new frame, all others stay as they were.
   */
  function Commit(g: Geometry, mask: nat, prev: Image, cur: Image): (r: Image)
    requires g.w >= 1 && g.h >= 1 && IsImage(g, prev) && IsImage(g, cur)
    ensures IsImage(g, r)
  {
    seq(g.h, y requires 0 <= y < g.h =>
      seq(g.w, x requires 0 <= x < g.w => if Visible(g, mask, x, y) then cur[y][x] else prev[y][x]))
  }

  /** Every chunk of a valid geometry is a non-empty region inside the frame. */
  lemma {:induction false} ChunkInside(g: Geometry, cx: nat, cy: nat)
    requires g.Valid() && cx < ChunkCountX && cy < ChunkCountY
    ensures X0(g, cx) < X1(g, cx) <= g.w && Y0(g, cy) < Y1(g, cy) <= g.h
  {
    MulLe(cx, ChunkCountX - 1, g.Cw());
    MulLe(cy, ChunkCountY - 1, g.Ch());
  }

  /**
   * Along one axis of n pixels cut into 8 slices of d = (n - 1) / 8 + 1: the
   * clamped quotient min(x / d, 7) is c exactly when x lies in slice c,
   * [c * d, min((c + 1) * d, n)).
   */
  lemma {:induction false} AxisChunk(n: nat, d: nat, x: nat, c: nat)
    requires n >= 1 && d == (n - 1) / 8 + 1 && x < n && c < 8
    ensures Min(x / d, 7) == c <==> c * d <= x < Min((c + 1) * d, n)
  {
    var q := x / d;
    DivBounds(x, d);
    assert 8 * d >= n;
    MulLt(q, c, d);
    MulLt(c, q, d);
    MulLe(c + 1, 8, d);
    if q >= 7 {
      MulLe(7, q, d);
    }
  }

  /** The quotient brackets the dividend. */
  lemma {:induction false} DivBounds(x: nat, d: nat)
    requires d >= 1
    ensures (x / d) * d <= x < (x / d) * d + d
  {
  }

  /** Pixel (x, y) lies in the region of chunk (cx, cy) exactly when its mask bit is cx * 8 + cy. */
  lemma {:induction false} RegionIsChunk(g: Geometry, cx: nat, cy: nat, x: nat, y: nat)
    requires g.Valid() && cx < ChunkCountX && cy < ChunkCountY && x < g.w && y < g.h
    ensures X0(g, cx) <= x < X1(g, cx) && Y0(g, cy) <= y < Y1(g, cy)
      <==> ChunkOf(g, x, y) == cx * ChunkCountY + cy
  {
    AxisChunk(g.w, g.Cw(), x, cx);
    AxisChunk(g.h, g.Ch(), y, cy);
  }

  /** The accumulator never stays above the threshold: it is either reset or at most the limit. */
  lemma {:induction false} NextAccBounded(g: Geometry, acc: nat, err: nat, uniform: bool)
    requires g.w >= 1 && g.h >= 1
    ensures NextAcc(g, acc, err, uniform) <= Threshold(g)
    ensures NextAcc(g, acc, err, uniform) == 0 <==> Fires(g, acc, err, uniform) || acc + err == 0
  {
  }

  /** A chunk with nothing pending and no differing pixel is not sent and stays at 0. */
  lemma {:induction false} QuietChunk(g: Geometry, uniform: bool)
    requires g.w >= 1 && g.h >= 1
    ensures !Fires(g, 0, 0, uniform) && NextAcc(g, 0, 0, uniform) == 0
  {
  }

  /** A frame error above the threshold sends the chunk at once. */
  lemma {:induction false} LargeChangeFires(g: Geometry, acc: nat, err: nat, uniform: bool)
    requires g.w >= 1 && g.h >= 1 && err > Threshold(g)
    ensures Fires(g, acc, err, uniform)
  {
  }

  /**
   * Hysteresis of a uniform chunk: while it is not sent, a nonzero pending
   * error grows by at least FRAME_CONST_FACTOR every frame, so it is sent
   * after at most Threshold / 5 + 1 frames.
   */
  lemma {:induction false} UniformGrows(g: Geometry, acc: nat, err: nat)
    requires g.w >= 1 && g.h >= 1 && acc + err != 0 && !Fires(g, acc, err, true)
    ensures NextAcc(g, acc, err, true) >= acc + err + ConstFactor
  {
  }

  /**
   * A uniform chunk with a nonzero accumulator that keeps being uniform is
   * sent within (Threshold - acc) / 5 + 1 frames, whatever its frame errors.
   */
  lemma {:induction false} UniformEventuallyFires(g: Geometry, acc: nat, errs: seq<nat>)
    requires g.w >= 1 && g.h >= 1 && acc != 0 && |errs| >= 1
    requires acc + ConstFactor * |errs| > Threshold(g)
    ensures exists i :: 0 <= i < |errs| && Fires(g, AccAfter(g, acc, errs[..i]), errs[i], true)
    decreases |errs|
  {
    if Fires(g, acc, errs[0], true) {
      assert AccAfter(g, acc, errs[..0]) == acc;
    } else {
      var a := NextAcc(g, acc, errs[0], true);
      assert a >= acc + ConstFactor;
      UniformEventuallyFires(g, a, errs[1..]);
      var i :| 0 <= i < |errs[1..]| && Fires(g, AccAfter(g, a, errs[1..][..i]), errs[1..][i], true);
      AccAfterCons(g, acc, errs, i + 1);
      assert Fires(g, AccAfter(g, acc, errs[..i + 1]), errs[i + 1], true);
    }
  }

  /** The accumulator of a uniform chunk after the given frame errors, none of which sent it. */
  function AccAfter(g: Geometry, acc: nat, errs: seq<nat>): nat
    requires g.w >= 1 && g.h >= 1
    decreases |errs|
  {
    if errs == [] then acc else AccAfter(g, NextAcc(g, acc, errs[0], true), errs[1..])
  }

  lemma {:induction false} AccAfterCons(g: Geometry, acc: nat, errs: seq<nat>, i: nat)
    requires g.w >= 1 && g.h >= 1 && 1 <= i <= |errs|
    ensures AccAfter(g, acc, errs[..i]) == AccAfter(g, NextAcc(g, acc, errs[0], true), errs[1..][..i - 1])
  {
    assert errs[..i][1..] == errs[1..][..i - 1];
  }
}
