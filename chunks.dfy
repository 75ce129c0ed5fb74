/**
 * Frame geometry shared by the encoder and both decoders: the frame is cut
 * into 8 x 8 chunks of ceil(W / 8) x ceil(H / 8) pixels (the right and bottom
 * chunks may be smaller), chunk (cx, cy) owns bit cx * 8 + cy of the 64-bit
 * change mask, and a frame's pixel data lists the pixels of changed chunks
 * column by column (vidproc/vidproc.cpp:155-158, 240-261; src/decoder.cpp:72-84;
 * vidproc/vidunproc.cpp:71-72, 96-108).
 */
module Chunks {
  import opened Bits

  /** CHUNK_COUNT_X, CHUNK_COUNT_Y and CHUNK_COUNT of vidproc/common.h. */
  const ChunkCountX: nat := 8
  const ChunkCountY: nat := 8
  const ChunkCount: nat := 64

  /** The frame size read from, or written to, the first two bytes of a stream. */
  datatype Geometry = Geometry(w: nat, h: nat)
  {
    /** CHUNK_WIDTH: (W - 1) / 8 + 1, W / 8 rounded up. */
    function Cw(): nat
      requires w >= 1
    {
      (w - 1) / ChunkCountX + 1
    }

    /** CHUNK_HEIGHT: (H - 1) / 8 + 1. */
    function Ch(): nat
      requires h >= 1
    {
      (h - 1) / ChunkCountY + 1
    }

    /**
     * A size the codec handles: at least one pixel each way, no chunk empty
     * (the encoder reads every chunk's top-left pixel), and a frame that fits
     * the 128 x 64 screen.
     */
    predicate Valid()
    {
      1 <= w <= 128 && 1 <= h <= 64
      && (ChunkCountX - 1) * Cw() < w && (ChunkCountY - 1) * Ch() < h
    }
  }

  function Min(a: nat, b: nat): nat
  {
    if a < b then a else b
  }

  /** CHUNK_FOR(min(x / CHUNK_WIDTH, 7), min(y / CHUNK_HEIGHT, 7)): the mask bit of pixel (x, y). */
  function ChunkOf(g: Geometry, x: nat, y: nat): (k: nat)
    requires g.w >= 1 && g.h >= 1
    ensures k < ChunkCount
  {
    Min(x / g.Cw(), ChunkCountX - 1) * ChunkCountY + Min(y / g.Ch(), ChunkCountY - 1)
  }

  /** Row y is the top row of a band of chunks: `y % CHUNK_HEIGHT == 0`. */
  predicate BandTop(g: Geometry, y: nat)
    requires g.h >= 1
  {
    y % g.Ch() == 0
  }

  /** Pixel (x, y) lies in a chunk whose mask bit is set. */
  predicate Visible(g: Geometry, mask: nat, x: nat, y: nat)
    requires g.w >= 1 && g.h >= 1
  {
    Bit(mask, ChunkOf(g, x, y))
  }

  /**
   * The pixels of changed chunks from (x, y) on, column by column and top to
   * bottom within a column: the order in which the encoder feeds pixels to
   * the run-length coder and the decoders write them. The mask never
   * changes; it ends the decreases clause only so that the verifier does
   * not unfold a whole scan once the geometry is a known constant.
   */
  function ScanFrom(g: Geometry, mask: nat, x: nat, y: nat): seq<(nat, nat)>
    requires g.w >= 1 && g.h >= 1
    decreases g.w - x, g.h - y, mask
  {
    if x >= g.w then []
    else if y >= g.h then ScanFrom(g, mask, x + 1, 0)
    else (if Visible(g, mask, x, y) then [(x, y)] else []) + ScanFrom(g, mask, x, y + 1)
  }

  /** The whole frame's scan. */
  function Scan(g: Geometry, mask: nat): seq<(nat, nat)>
    requires g.w >= 1 && g.h >= 1
  {
    ScanFrom(g, mask, 0, 0)
  }

  /** Multiplication by d is monotone. */
  lemma {:induction false} MulLe(a: nat, b: nat, d: nat)
    requires a <= b
    ensures a * d <= b * d
    decreases b - a
  {
    if a < b {
      MulLe(a, b - 1, d);
      assert b * d == (b - 1) * d + d;
    }
  }

  /** The quotient is the q with q * d <= y < (q + 1) * d. */
  lemma {:induction false} DivUnique(y: nat, d: nat, q: nat)
    requires d >= 1 && q * d <= y < q * d + d
    ensures y / d == q
  {
    var r := y / d;
    assert r * d <= y < r * d + d;
    MulLt(r, q, d);
    MulLt(q, r, d);
  }

  /** The top row of the next band is again a band top. */
  lemma {:induction false} NextBandTop(y: nat, d: nat)
    requires d >= 1 && y % d == 0
    ensures (y + d) % d == 0
  {
    var q := y / d;
    assert y == q * d;
    assert y + d == (q + 1) * d;
    DivUnique(y + d, d, q + 1);
  }

  /** A smaller factor leaves room for one more d. */
  lemma {:induction false} MulLt(a: nat, b: nat, d: nat)
    ensures a < b ==> a * d + d <= b * d
  {
    if a < b {
      MulLe(a + 1, b, d);
      assert (a + 1) * d == a * d + d;
    }
  }

  /** Chunk rows: every row of one chunk band shares y / CHUNK_HEIGHT with its top row. */
  lemma {:induction false} SameBand(ch: nat, y0: nat, y: nat)
    requires ch >= 1 && y0 % ch == 0 && y0 <= y < y0 + ch
    ensures y / ch == y0 / ch
  {
    var q := y0 / ch;
    assert y0 == q * ch;
    DivUnique(y, ch, q);
  }

  /** A row inside a band (not its top row) belongs to the same chunk as the row above. */
  lemma {:induction false} InsideBand(ch: nat, y: nat)
    requires ch >= 1 && y % ch != 0 && y >= 1
    ensures y / ch == (y - 1) / ch
  {
    var q := y / ch;
    assert y == q * ch + y % ch;
    DivUnique(y - 1, ch, q);
  }

  /**
   * The skip: when the top pixel of a band of CHUNK_HEIGHT rows is in an
   * unchanged chunk, so are all of the band's pixels, and the scan from the
   * band's top is the scan from the row after it.
   */
  lemma {:induction false} SkipBand(g: Geometry, mask: nat, x: nat, y0: nat, y: nat)
    requires g.w >= 1 && g.h >= 1 && y0 % g.Ch() == 0 && y0 <= y <= y0 + g.Ch()
    requires x < g.w && !Visible(g, mask, x, y0)
    ensures ScanFrom(g, mask, x, y) == ScanFrom(g, mask, x, y0 + g.Ch())
    decreases y0 + g.Ch() - y
  {
    if y < y0 + g.Ch() {
      if y < g.h {
        SameBand(g.Ch(), y0, y);
        assert ChunkOf(g, x, y) == ChunkOf(g, x, y0);
        SkipBand(g, mask, x, y0, y + 1);
      } else {
        assert ScanFrom(g, mask, x, y) == ScanFrom(g, mask, x + 1, 0);
        ColumnEnd(g, mask, x, y0 + g.Ch());
      }
    }
  }

  /** Past the last row, the scan goes on at the top of the next column. */
  lemma {:induction false} ColumnEnd(g: Geometry, mask: nat, x: nat, y: nat)
    requires g.w >= 1 && g.h >= 1 && x < g.w && y >= g.h
    ensures ScanFrom(g, mask, x, y) == ScanFrom(g, mask, x + 1, 0)
  {
  }

  /** A pixel inside a band whose top row is visible is visible. */
  lemma {:induction false} VisibleInBand(g: Geometry, mask: nat, x: nat, y: nat)
    requires g.w >= 1 && g.h >= 1 && y % g.Ch() != 0 && y >= 1
    ensures Visible(g, mask, x, y) == Visible(g, mask, x, y - 1)
  {
    InsideBand(g.Ch(), y);
  }

  /** The scan from (x, y) lists exactly the visible pixels at or after (x, y) in column-major order. */
  lemma {:induction false} ScanFromMembers(g: Geometry, mask: nat, x: nat, y: nat, a: nat, b: nat)
    requires g.w >= 1 && g.h >= 1
    ensures (a, b) in ScanFrom(g, mask, x, y)
      <==> a < g.w && b < g.h && (a > x || (a == x && b >= y)) && Visible(g, mask, a, b)
    decreases g.w - x, g.h - y
  {
    if x >= g.w {
    } else if y >= g.h {
      ScanFromMembers(g, mask, x + 1, 0, a, b);
    } else {
      ScanFromMembers(g, mask, x, y + 1, a, b);
    }
  }

  /** The frame's scan visits exactly the pixels of changed chunks. */
  lemma {:induction false} ScanMembers(g: Geometry, mask: nat, a: nat, b: nat)
    requires g.w >= 1 && g.h >= 1
    ensures (a, b) in Scan(g, mask) <==> a < g.w && b < g.h && Visible(g, mask, a, b)
  {
    ScanFromMembers(g, mask, 0, 0, a, b);
  }

  /** Pixel p comes before pixel q in column-major order. */
  predicate Before(p: (nat, nat), q: (nat, nat))
  {
    p.0 < q.0 || (p.0 == q.0 && p.1 < q.1)
  }

  /** Scanned pixels come in strictly increasing column-major order, so none twice. */
  lemma {:induction false} ScanFromOrdered(g: Geometry, mask: nat, x: nat, y: nat, i: nat, j: nat)
    requires g.w >= 1 && g.h >= 1 && i < j < |ScanFrom(g, mask, x, y)|
    ensures Before(ScanFrom(g, mask, x, y)[i], ScanFrom(g, mask, x, y)[j])
    decreases g.w - x, g.h - y
  {
    var s := ScanFrom(g, mask, x, y);
    if y >= g.h {
      ScanFromOrdered(g, mask, x + 1, 0, i, j);
    } else {
      var rest := ScanFrom(g, mask, x, y + 1);
      if Visible(g, mask, x, y) {
        assert s == [(x, y)] + rest;
        if i == 0 {
          var q := s[j];
          assert q == rest[j - 1];
          ScanFromMembers(g, mask, x, y + 1, q.0, q.1);
        } else {
          assert s[i] == rest[i - 1] && s[j] == rest[j - 1];
          ScanFromOrdered(g, mask, x, y + 1, i - 1, j - 1);
        }
      } else {
        assert s == rest;
        ScanFromOrdered(g, mask, x, y + 1, i, j);
      }
    }
  }

  /** With an empty mask nothing is visited from anywhere. */
  lemma {:induction false} EmptyMaskFrom(g: Geometry, x: nat, y: nat)
    requires g.w >= 1 && g.h >= 1
    ensures ScanFrom(g, 0, x, y) == []
    decreases g.w - x, g.h - y
  {
    if x < g.w {
      if y >= g.h {
        EmptyMaskFrom(g, x + 1, 0);
      } else {
        ZeroHasNoBit(ChunkOf(g, x, y));
        EmptyMaskFrom(g, x, y + 1);
      }
    }
  }

  /** A zero mask visits no pixel, so no pixel data is written or read. */
  lemma {:induction false} EmptyMask(g: Geometry)
    requires g.w >= 1 && g.h >= 1
    ensures Scan(g, 0) == []
  {
    EmptyMaskFrom(g, 0, 0);
  }

  /** The all-ones mask `~0ull`, used for the first frame. */
  const FullMask: nat := 0xFFFF_FFFF_FFFF_FFFF

  /** `~0ull` has all 64 bits set. */
  lemma {:induction false} FullMaskIsAllOnes()
    ensures FullMask == AllOnes(ChunkCount)
  {
    Pow2Byte();
    assert Pow2(16) == 65536 by {
      Pow2Add(8, 8);
    }
    assert Pow2(32) == 0x1_0000_0000 by {
      Pow2Add(16, 16);
    }
    Pow2Add(32, 32);
  }

  /** Every pixel is in a changed chunk of the all-ones mask. */
  lemma {:induction false} FullMaskVisible(g: Geometry, x: nat, y: nat)
    requires g.w >= 1 && g.h >= 1
    ensures Visible(g, FullMask, x, y)
  {
    FullMaskIsAllOnes();
    AllOnesBit(ChunkCount, ChunkOf(g, x, y));
  }

  /** With every chunk changed the scan from (x, y) visits every pixel at or after it. */
  lemma {:induction false} AllVisibleFrom(g: Geometry, mask: nat, x: nat, y: nat)
    requires g.w >= 1 && g.h >= 1 && x < g.w && y <= g.h
    requires forall a: nat, b: nat :: a < g.w && b < g.h ==> Visible(g, mask, a, b)
    ensures |ScanFrom(g, mask, x, y)| == (g.w - x - 1) * g.h + (g.h - y)
    decreases g.w - x, g.h - y
  {
    if y == g.h {
      if x + 1 < g.w {
        AllVisibleFrom(g, mask, x + 1, 0);
        MulSucc(g.w - x - 2, g.h);
      }
    } else {
      AllVisibleFrom(g, mask, x, y + 1);
    }
  }

  /** The first frame's scan has W * H pixels. */
  lemma {:induction false} FullMaskCount(g: Geometry)
    requires g.w >= 1 && g.h >= 1
    ensures |Scan(g, FullMask)| == g.w * g.h
  {
    forall a: nat, b: nat | a < g.w && b < g.h
      ensures Visible(g, FullMask, a, b)
    {
      FullMaskVisible(g, a, b);
    }
    AllVisibleFrom(g, FullMask, 0, 0);
    MulSucc(g.w - 1, g.h);
  }

  lemma {:induction false} MulSucc(k: int, h: int)
    ensures k * h + h == (k + 1) * h
  {
  }

  /** The first frame visits every pixel. */
  lemma {:induction false} FullMaskVisits(g: Geometry, a: nat, b: nat)
    requires g.w >= 1 && g.h >= 1 && a < g.w && b < g.h
    ensures (a, b) in Scan(g, FullMask)
  {
    FullMaskVisible(g, a, b);
    ScanMembers(g, FullMask, a, b);
  }

  /** A bilevel frame as the encoder receives it, row y, column x; true is a set (dark) pixel. */
  type Image = seq<seq<bool>>

  /** img is an H x W frame. */
  predicate IsImage(g: Geometry, img: Image)
  {
    |img| == g.h && forall y :: 0 <= y < |img| ==> |img[y]| == g.w
  }

  /** Every listed pixel lies inside the frame. */
  predicate InFrame(g: Geometry, cs: seq<(nat, nat)>)
  {
    forall i :: 0 <= i < |cs| ==> cs[i].0 < g.w && cs[i].1 < g.h
  }

  /** The values of the listed pixels of img, in order. */
  function Pixels(g: Geometry, img: Image, cs: seq<(nat, nat)>): (r: seq<bool>)
    requires IsImage(g, img) && InFrame(g, cs)
    ensures |r| == |cs|
    ensures forall i :: 0 <= i < |cs| ==> r[i] == img[cs[i].1][cs[i].0]
  {
    seq(|cs|, i requires 0 <= i < |cs| => img[cs[i].1][cs[i].0])
  }

  /** One more pixel listed, one more value. */
  lemma {:induction false} PixelsSnoc(g: Geometry, img: Image, cs: seq<(nat, nat)>, x: nat, y: nat)
    requires IsImage(g, img) && InFrame(g, cs) && x < g.w && y < g.h
    ensures InFrame(g, cs + [(x, y)])
    ensures Pixels(g, img, cs + [(x, y)]) == Pixels(g, img, cs) + [img[y][x]]
  {
  }

  /** Every pixel of a scan lies inside the frame. */
  lemma {:induction false} ScanInFrame(g: Geometry, mask: nat)
    requires g.w >= 1 && g.h >= 1
    ensures InFrame(g, Scan(g, mask))
  {
    var s := Scan(g, mask);
    forall i | 0 <= i < |s|
      ensures s[i].0 < g.w && s[i].1 < g.h
    {
      ScanMembers(g, mask, s[i].0, s[i].1);
    }
  }

  /** No scan lists more pixels than the frame has. */
  lemma {:induction false} ScanFromBound(g: Geometry, mask: nat, x: nat, y: nat)
    requires g.w >= 1 && g.h >= 1 && x < g.w && y <= g.h
    ensures |ScanFrom(g, mask, x, y)| <= (g.w - x - 1) * g.h + (g.h - y)
    decreases g.w - x, g.h - y
  {
    if y == g.h {
      if x + 1 < g.w {
        ScanFromBound(g, mask, x + 1, 0);
        assert (g.w - x - 1) * g.h == (g.w - x - 2) * g.h + g.h;
      }
    } else {
      ScanFromBound(g, mask, x, y + 1);
    }
  }

  /** A valid frame's scan has at most 128 * 64 pixels. */
  lemma {:induction false} ScanBound(g: Geometry, mask: nat)
    requires g.Valid()
    ensures |Scan(g, mask)| <= 8192
  {
    ScanFromBound(g, mask, 0, 0);
    var k := g.w - 1;
    assert k * g.h + g.h == (k + 1) * g.h;
    MulLe(g.w, 128, g.h);
    MulLe(g.h, 64, 128);
    assert g.w * g.h <= 128 * g.h;
  }

  /** The 64 header bits: mask bit 63 first, bit 0 last. */
  function MaskBits(mask: nat): (r: seq<bool>)
    ensures |r| == ChunkCount
  {
    Msb(mask, ChunkCount)
  }

  /** Header bit i is mask bit 63 - i. */
  lemma {:induction false} MaskBitsAt(mask: nat, i: nat)
    requires i < ChunkCount
    ensures MaskBits(mask)[i] == Bit(mask, ChunkCount - 1 - i)
  {
    MsbAt(mask, ChunkCount, i);
  }

  /** A visible pixel is the next one the scan lists. */
  lemma {:induction false} ScanStep(g: Geometry, mask: nat, visited: seq<(nat, nat)>, x: nat, y: nat)
    requires g.w >= 1 && g.h >= 1 && x < g.w && y < g.h && Visible(g, mask, x, y)
    requires visited + ScanFrom(g, mask, x, y) == Scan(g, mask)
    ensures visited + [(x, y)] + ScanFrom(g, mask, x, y + 1) == Scan(g, mask)
    ensures |visited| < |Scan(g, mask)|
    ensures InBand(g, mask, x, y + 1)
  {
    assert ScanFrom(g, mask, x, y) == [(x, y)] + ScanFrom(g, mask, x, y + 1);
    if y + 1 < g.h && !BandTop(g, y + 1) {
      VisibleInBand(g, mask, x, y + 1);
    }
  }

  /** Inside a band (below its top row) the scan only meets pixels of a changed chunk. */
  ghost predicate InBand(g: Geometry, mask: nat, x: nat, y: nat)
    requires g.w >= 1 && g.h >= 1
  {
    y < g.h && !BandTop(g, y) ==> Visible(g, mask, x, y)
  }

  lemma {:induction false} InBandVisible(g: Geometry, mask: nat, x: nat, y: nat)
    requires g.w >= 1 && g.h >= 1 && InBand(g, mask, x, y) && y < g.h && !BandTop(g, y)
    ensures Visible(g, mask, x, y)
  {
  }

  /** The skip of an unchanged band: the scan goes on at the next band's top row. */
  lemma {:induction false} SkipStep(g: Geometry, mask: nat, visited: seq<(nat, nat)>, x: nat, y: nat)
    requires g.w >= 1 && g.h >= 1 && x < g.w && y < g.h && BandTop(g, y)
    requires !Bit(mask, ChunkOf(g, x, y))
    requires visited + ScanFrom(g, mask, x, y) == Scan(g, mask)
    ensures visited + ScanFrom(g, mask, x, y + g.Ch()) == Scan(g, mask)
    ensures InBand(g, mask, x, y + g.Ch())
  {
    SkipBand(g, mask, x, y, y);
    NextBandTop(y, g.Ch());
  }
}
