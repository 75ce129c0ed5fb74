/**
 * The 128 x 64 screen as the frame buffers hold it: 32 rows of 16 words of
 * 16 pixels, the leftmost pixel in bit 15; screen rows 32..63 are words
 * 8..15 of rows 0..31 (include/lcd12864.h:82-85; src/decoder.cpp:92-106).
 * A decoded W x H frame sits in the window whose top-left screen pixel is
 * (OX, OY).
 */
module LcdLayout {
  import opened Chunks
  import opened Playback

  const ScreenWidth: nat := 128
  const ScreenHeight: nat := 64
  /** Rows and words per row of `draw_buf`, `display_buf` and the decoder's frame. */
  const BufRows: nat := 32
  const BufCols: nat := 16

  /** The buffer row of screen row sy. */
  function WordRow(sy: nat): nat
  {
    if sy >= BufRows then sy - BufRows else sy
  }

  /** The word of screen pixel (sx, sy) within its buffer row. */
  function WordCol(sx: nat, sy: nat): nat
  {
    sx / 16 + (if sy >= BufRows then ScreenWidth / 16 else 0)
  }

  /** The bit of the word that holds screen column sx: `15 - sx % 16`. */
  function WordBit(sx: nat): nat
  {
    15 - sx % 16
  }

  /** The screen column of bit b of a word in buffer column c. */
  function ScreenX(c: nat, b: nat): int
  {
    16 * (c % 8) + 15 - b
  }

  /** The screen row of a word in buffer row r and column c. */
  function ScreenY(r: nat, c: nat): nat
  {
    r + (if c >= 8 then BufRows else 0)
  }

  /** Every screen pixel has an address inside the buffer, and the address gives the pixel back. */
  lemma {:induction false} AddressOfPixel(sx: nat, sy: nat)
    requires sx < ScreenWidth && sy < ScreenHeight
    ensures WordRow(sy) < BufRows && WordCol(sx, sy) < BufCols && WordBit(sx) < 16
    ensures ScreenX(WordCol(sx, sy), WordBit(sx)) == sx && ScreenY(WordRow(sy), WordCol(sx, sy)) == sy
  {
  }

  /** Every bit of the buffer holds one screen pixel, whose address is that bit. */
  lemma {:induction false} PixelOfAddress(r: nat, c: nat, b: nat)
    requires r < BufRows && c < BufCols && b < 16
    ensures 0 <= ScreenX(c, b) < ScreenWidth && ScreenY(r, c) < ScreenHeight
    ensures WordRow(ScreenY(r, c)) == r && WordCol(ScreenX(c, b), ScreenY(r, c)) == c
    ensures WordBit(ScreenX(c, b)) == b
  {
  }

  /** Bit index b as a word, counted up from 0. */
  function BitIndex(b: nat): (i: bv16)
    requires b < 16
    ensures i < 16
    decreases b, 0
  {
    if b == 0 then 0
    else
      BitIndexIs(b - 1);
      BitIndex(b - 1) + 1
  }

  lemma {:induction false} BitIndexIs(b: nat)
    requires b < 16
    ensures BitIndex(b) == b as bv16
    decreases b, 1
  {
    if b > 0 {
      BitIndexIs(b - 1);
    }
  }

  /** Bit b of a word is set: `(w >> b) & 1`. */
  predicate Lit(w: bv16, b: nat)
    requires b < 16
  {
    LitAt(w, BitIndex(b))
  }

  predicate LitAt(w: bv16, b: bv16)
    requires b < 16
  {
    (w >> b) & 1 == 1
  }

  /** `w |= 1 << b` when v, `w &= ~(1 << b)` otherwise. */
  function PaintWord(w: bv16, b: nat, v: bool): bv16
    requires b < 16
  {
    PaintAt(w, BitIndex(b), v)
  }

  function PaintAt(w: bv16, b: bv16, v: bool): bv16
    requires b < 16
  {
    if v then w | (1 << b) else w & !(1 << b)
  }

  /** Painting a bit sets it to v and leaves the other 15 bits alone. */
  lemma {:induction false} PaintWordBits(w: bv16, b: nat, v: bool, j: nat)
    requires b < 16 && j < 16
    ensures Lit(PaintWord(w, b, v), j) == if j == b then v else Lit(w, j)
  {
    BitIndexIs(b);
    BitIndexIs(j);
    PaintAtBits(w, BitIndex(b), v, BitIndex(j));
    assert (b as bv16 == j as bv16) == (b == j);
  }

  lemma {:induction false} PaintAtBits(w: bv16, b: bv16, v: bool, j: bv16)
    requires b < 16 && j < 16
    ensures LitAt(PaintAt(w, b, v), j) == if j == b then v else LitAt(w, j)
  {
  }

  /** Every listed frame pixel lies on the screen once moved to the window at (ox, oy). */
  predicate OnScreen(cs: seq<(nat, nat)>, ox: nat, oy: nat)
  {
    forall i :: 0 <= i < |cs| ==> cs[i].0 + ox < ScreenWidth && cs[i].1 + oy < ScreenHeight
  }

  /**
   * Word (r, c) after px[i] has been painted at frame pixel cs[i], for each
   * i < |cs| in order, with the frame's window at (ox, oy); colours past
   * |cs| are not painted yet.
   */
  function WordAfter(w0: bv16, cs: seq<(nat, nat)>, px: seq<bool>, ox: nat, oy: nat, r: nat, c: nat): bv16
    requires |cs| <= |px| && OnScreen(cs, ox, oy)
    decreases |cs|
  {
    if cs == [] then w0
    else
      var n := |cs| - 1;
      PaintIfAt(WordAfter(w0, cs[..n], px, ox, oy, r, c), cs[n].0 + ox, cs[n].1 + oy, px[n], r, c)
  }

  /** One more pixel on the screen keeps the list on the screen. */
  lemma {:induction false} OnScreenNext(cs: seq<(nat, nat)>, x: nat, y: nat, ox: nat, oy: nat)
    requires OnScreen(cs, ox, oy) && x + ox < ScreenWidth && y + oy < ScreenHeight
    ensures OnScreen(cs + [(x, y)], ox, oy)
  {
    var next := cs + [(x, y)];
    forall i | 0 <= i < |next| ensures next[i].0 + ox < ScreenWidth && next[i].1 + oy < ScreenHeight {
      if i < |cs| {
        assert next[i] == cs[i];
      }
    }
  }

  /** The buffer with screen pixel (sx, sy) painted v: its word alone changes, by PaintWord. */
  function PaintBuf(words: seq<seq<bv16>>, sx: nat, sy: nat, v: bool): (r: seq<seq<bv16>>)
    requires IsBuffer(words) && sx < ScreenWidth && sy < ScreenHeight
    ensures IsBuffer(r)
  {
    AddressOfPixel(sx, sy);
    var row, col := WordRow(sy), WordCol(sx, sy);
    words[row := words[row][col := PaintWord(words[row][col], WordBit(sx), v)]]
  }

  /** The buffer after px[i] has been painted at frame pixel cs[i], for each i < |cs| in order. */
  function PaintedBuf(before: seq<seq<bv16>>, cs: seq<(nat, nat)>, px: seq<bool>, ox: nat, oy: nat): (r: seq<seq<bv16>>)
    requires IsBuffer(before) && |cs| <= |px| && OnScreen(cs, ox, oy)
    ensures IsBuffer(r)
    decreases |cs|
  {
    if cs == [] then before
    else
      var n := |cs| - 1;
      PaintBuf(PaintedBuf(before, cs[..n], px, ox, oy), cs[n].0 + ox, cs[n].1 + oy, px[n])
  }

  /** One more pixel painted, px[|cs|] at (x, y), is one more PaintBuf on top. */
  lemma {:induction false} PaintedBufNext(before: seq<seq<bv16>>, cs: seq<(nat, nat)>, px: seq<bool>, x: nat, y: nat, ox: nat, oy: nat)
    requires IsBuffer(before) && |cs| < |px| && x + ox < ScreenWidth && y + oy < ScreenHeight
    requires OnScreen(cs, ox, oy) && OnScreen(cs + [(x, y)], ox, oy)
    ensures PaintedBuf(before, cs + [(x, y)], px, ox, oy)
      == PaintBuf(PaintedBuf(before, cs, px, ox, oy), x + ox, y + oy, px[|cs|])
  {
    var next := cs + [(x, y)];
    assert next[..|cs|] == cs;
    PaintedBufLast(before, next, px, ox, oy);
  }

  /** PaintedBuf unfolded once: the last pixel is painted over the buffer of the others. */
  lemma {:induction false} PaintedBufLast(before: seq<seq<bv16>>, cs: seq<(nat, nat)>, px: seq<bool>, ox: nat, oy: nat)
    requires IsBuffer(before) && cs != [] && |cs| <= |px| && OnScreen(cs, ox, oy)
    ensures OnScreen(cs[..|cs| - 1], ox, oy)
    ensures PaintedBuf(before, cs, px, ox, oy)
      == PaintBuf(PaintedBuf(before, cs[..|cs| - 1], px, ox, oy), cs[|cs| - 1].0 + ox, cs[|cs| - 1].1 + oy, px[|cs| - 1])
  {
  }

  /** Word (r, c) of a painted buffer is the word WordAfter paints. */
  lemma {:induction false} PaintBufAt(words: seq<seq<bv16>>, sx: nat, sy: nat, v: bool, r: nat, c: nat)
    requires IsBuffer(words) && sx < ScreenWidth && sy < ScreenHeight && r < BufRows && c < BufCols
    ensures PaintBuf(words, sx, sy, v)[r][c] == PaintIfAt(words[r][c], sx, sy, v, r, c)
  {
    AddressOfPixel(sx, sy);
  }

  lemma {:induction false} PaintedBufAt(before: seq<seq<bv16>>, cs: seq<(nat, nat)>, px: seq<bool>,
                                        ox: nat, oy: nat, r: nat, c: nat)
    requires IsBuffer(before) && |cs| <= |px| && OnScreen(cs, ox, oy) && r < BufRows && c < BufCols
    ensures PaintedBuf(before, cs, px, ox, oy)[r][c] == WordAfter(before[r][c], cs, px, ox, oy, r, c)
    decreases |cs|
  {
    if cs != [] {
      var n := |cs| - 1;
      assert OnScreen(cs[..n], ox, oy) by {
        forall i | 0 <= i < n ensures cs[..n][i].0 + ox < ScreenWidth && cs[..n][i].1 + oy < ScreenHeight {
          assert cs[..n][i] == cs[i];
        }
      }
      PaintedBufAt(before, cs[..n], px, ox, oy, r, c);
      PaintBufAt(PaintedBuf(before, cs[..n], px, ox, oy), cs[n].0 + ox, cs[n].1 + oy, px[n], r, c);
    }
  }

  /** The painted buffer is Painted, word by word. */
  lemma {:induction false} PaintedBufPainted(before: seq<seq<bv16>>, cs: seq<(nat, nat)>, px: seq<bool>, ox: nat, oy: nat)
    requires IsBuffer(before) && |cs| == |px| && OnScreen(cs, ox, oy)
    ensures Painted(before, PaintedBuf(before, cs, px, ox, oy), cs, px, ox, oy)
  {
    forall r, c | 0 <= r < BufRows && 0 <= c < BufCols
      ensures PaintedBuf(before, cs, px, ox, oy)[r][c] == WordAfter(before[r][c], cs, px, ox, oy, r, c)
    {
      PaintedBufAt(before, cs, px, ox, oy, r, c);
    }
  }

  /** A buffer equal to another but for word (row, col) is the other updated there. */
  lemma {:induction false} BufferStore(prior: seq<seq<bv16>>, after: seq<seq<bv16>>, row: nat, col: nat, w: bv16)
    requires IsBuffer(prior) && IsBuffer(after) && row < BufRows && col < BufCols
    requires forall r, c :: 0 <= r < BufRows && 0 <= c < BufCols ==>
      after[r][c] == if r == row && c == col then w else prior[r][c]
    ensures after == prior[row := prior[row][col := w]]
  {
    var updated := prior[row := prior[row][col := w]];
    forall r | 0 <= r < BufRows ensures after[r] == updated[r] {
      assert forall c :: 0 <= c < BufCols ==> after[r][c] == updated[r][c];
    }
  }

  /** Word (r, c) after screen pixel (sx, sy) is painted v: changed only if it holds that pixel. */
  function PaintIfAt(w: bv16, sx: nat, sy: nat, v: bool, r: nat, c: nat): bv16
    requires sx < ScreenWidth && sy < ScreenHeight
  {
    if WordRow(sy) == r && WordCol(sx, sy) == c then PaintWord(w, WordBit(sx), v) else w
  }

  /** Two screen pixels never share a bit: a bit's address names exactly one pixel. */
  lemma {:induction false} SameAddress(sx: nat, sy: nat, r: nat, c: nat, b: nat)
    requires sx < ScreenWidth && sy < ScreenHeight && r < BufRows && c < BufCols && b < 16
    ensures (WordRow(sy) == r && WordCol(sx, sy) == c && WordBit(sx) == b)
      <==> (sx == ScreenX(c, b) && sy == ScreenY(r, c))
  {
    AddressOfPixel(sx, sy);
    PixelOfAddress(r, c, b);
  }

  /** Painting one screen pixel changes bit b of word (r, c) only when that bit is the pixel's. */
  lemma {:induction false} PaintIfAtBit(w: bv16, sx: nat, sy: nat, v: bool, r: nat, c: nat, b: nat)
    requires sx < ScreenWidth && sy < ScreenHeight && r < BufRows && c < BufCols && b < 16
    ensures Lit(PaintIfAt(w, sx, sy, v, r, c), b)
      == if sx == ScreenX(c, b) && sy == ScreenY(r, c) then v else Lit(w, b)
  {
    SameAddress(sx, sy, r, c, b);
    if WordRow(sy) == r && WordCol(sx, sy) == c {
      AddressOfPixel(sx, sy);
      PaintWordBits(w, WordBit(sx), v, b);
    }
  }

  /**
   * Bit b of word (r, c) after painting: the last colour written at the
   * frame pixel that bit shows, or the old bit when no frame pixel maps
   * there.
   */
  lemma {:induction false} WordAfterBit(w0: bv16, cs: seq<(nat, nat)>, px: seq<bool>, ox: nat, oy: nat,
                                        r: nat, c: nat, b: nat)
    requires |cs| <= |px| && OnScreen(cs, ox, oy) && r < BufRows && c < BufCols && b < 16
    ensures Lit(WordAfter(w0, cs, px, ox, oy, r, c), b)
      == if ox <= ScreenX(c, b) && oy <= ScreenY(r, c)
         then LastWrite(Lit(w0, b), cs, px[..|cs|], ScreenX(c, b) - ox, ScreenY(r, c) - oy)
         else Lit(w0, b)
    decreases |cs|
  {
    if cs != [] {
      var n := |cs| - 1;
      var front := cs[..n];
      assert OnScreen(front, ox, oy) by {
        forall i | 0 <= i < |front| ensures front[i].0 + ox < ScreenWidth && front[i].1 + oy < ScreenHeight {
          assert front[i] == cs[i];
        }
      }
      WordAfterBit(w0, front, px, ox, oy, r, c, b);
      var w := WordAfter(w0, front, px, ox, oy, r, c);
      assert WordAfter(w0, cs, px, ox, oy, r, c) == PaintIfAt(w, cs[n].0 + ox, cs[n].1 + oy, px[n], r, c);
      BitAfterStep(w, w0, cs, px, ox, oy, r, c, b);
    }
  }

  /** The step of WordAfterBit: painting the last pixel of cs over word w. */
  lemma {:induction false} BitAfterStep(w: bv16, w0: bv16, cs: seq<(nat, nat)>, px: seq<bool>, ox: nat, oy: nat, r: nat, c: nat, b: nat)
    requires cs != [] && |cs| <= |px| && OnScreen(cs, ox, oy) && r < BufRows && c < BufCols && b < 16
    requires Lit(w, b)
      == if ox <= ScreenX(c, b) && oy <= ScreenY(r, c)
         then LastWrite(Lit(w0, b), cs[..|cs| - 1], px[..|cs| - 1], ScreenX(c, b) - ox, ScreenY(r, c) - oy)
         else Lit(w0, b)
    ensures Lit(PaintIfAt(w, cs[|cs| - 1].0 + ox, cs[|cs| - 1].1 + oy, px[|cs| - 1], r, c), b)
      == if ox <= ScreenX(c, b) && oy <= ScreenY(r, c)
         then LastWrite(Lit(w0, b), cs, px[..|cs|], ScreenX(c, b) - ox, ScreenY(r, c) - oy)
         else Lit(w0, b)
  {
    var n := |cs| - 1;
    PaintIfAtBit(w, cs[n].0 + ox, cs[n].1 + oy, px[n], r, c, b);
    LastWriteStep(Lit(w, b), Lit(PaintIfAt(w, cs[n].0 + ox, cs[n].1 + oy, px[n], r, c), b), Lit(w0, b),
                  cs, px, ox, oy, ScreenX(c, b), ScreenY(r, c));
  }

  /**
   * BitAfterStep on the bits alone: the pixel at (sx, sy) of the screen is
   * the frame pixel (sx - ox, sy - oy) when that lies in the window, so one
   * more write there is one more step of LastWrite.
   */
  lemma {:induction false} LastWriteStep(before: bool, after: bool, base: bool, cs: seq<(nat, nat)>, px: seq<bool>,
                      ox: nat, oy: nat, sx: int, sy: nat)
    requires cs != [] && |cs| <= |px|
    requires before
      == if ox <= sx && oy <= sy then LastWrite(base, cs[..|cs| - 1], px[..|cs| - 1], sx - ox, sy - oy) else base
    requires after
      == if cs[|cs| - 1].0 + ox == sx && cs[|cs| - 1].1 + oy == sy then px[|cs| - 1] else before
    ensures after == if ox <= sx && oy <= sy then LastWrite(base, cs, px[..|cs|], sx - ox, sy - oy) else base
  {
    var n := |cs| - 1;
    if ox <= sx && oy <= sy {
      var x, y := sx - ox, sy - oy;
      var vs := px[..|cs|];
      assert vs[..n] == px[..n];
      assert LastWrite(base, cs, vs, x, y)
        == if cs[n] == (x, y) then px[n] else LastWrite(base, cs[..n], px[..n], x, y);
    }
  }

  /** The rows of a 32 x 16 word buffer. */
  predicate IsBuffer(words: seq<seq<bv16>>)
  {
    |words| == BufRows && forall r :: 0 <= r < BufRows ==> |words[r]| == BufCols
  }

  /** A 32 x 16 word buffer (the decoder's frame, `draw_buf`, `display_buf`) as rows of words. */
  function Grid(frame: array2<bv16>): (r: seq<seq<bv16>>)
    requires frame.Length0 == BufRows && frame.Length1 == BufCols
    reads frame
    ensures IsBuffer(r)
    ensures forall i, j :: 0 <= i < BufRows && 0 <= j < BufCols ==> r[i][j] == frame[i, j]
  {
    seq(BufRows, i requires 0 <= i < BufRows reads frame => seq(BufCols, j requires 0 <= j < BufCols reads frame => frame[i, j]))
  }

  /** The W x H frame fits the screen when its window is at (ox, oy). */
  predicate Fits(g: Geometry, ox: nat, oy: nat)
  {
    g.w + ox <= ScreenWidth && g.h + oy <= ScreenHeight
  }

  /** The buffer shows img in the window at (ox, oy): the bit of each frame pixel is its colour. */
  predicate Shows(words: seq<seq<bv16>>, g: Geometry, ox: nat, oy: nat, img: Image)
    requires IsBuffer(words) && IsImage(g, img) && Fits(g, ox, oy)
  {
    forall x, y :: 0 <= x < g.w && 0 <= y < g.h ==>
      Lit(words[WordRow(y + oy)][WordCol(x + ox, y + oy)], WordBit(x + ox)) == img[y][x]
  }

  /** Screen pixel (sx, sy) lies outside the window of a W x H frame at (ox, oy). */
  predicate Outside(g: Geometry, ox: nat, oy: nat, sx: int, sy: int)
  {
    sx < ox || sy < oy || sx >= ox + g.w || sy >= oy + g.h
  }

  /** after is before with px painted along cs, word by word. */
  predicate Painted(before: seq<seq<bv16>>, after: seq<seq<bv16>>, cs: seq<(nat, nat)>, px: seq<bool>, ox: nat, oy: nat)
    requires IsBuffer(before) && IsBuffer(after) && |px| == |cs| && OnScreen(cs, ox, oy)
  {
    forall r, c :: 0 <= r < BufRows && 0 <= c < BufCols ==>
      after[r][c] == WordAfter(before[r][c], cs, px, ox, oy, r, c)
  }

  /** The scan of a frame that fits lies on the screen. */
  lemma {:induction false} ScanOnScreen(g: Geometry, mask: nat, ox: nat, oy: nat)
    requires g.w >= 1 && g.h >= 1 && Fits(g, ox, oy)
    ensures OnScreen(Scan(g, mask), ox, oy)
  {
    ScanInFrame(g, mask);
  }

  /**
   * Painting one frame's pixels along its scan: a buffer that showed img
   * shows img with the pixels of changed chunks replaced (Apply).
   */
  lemma {:induction false} PaintedShows(before: seq<seq<bv16>>, after: seq<seq<bv16>>, g: Geometry, mask: nat, px: seq<bool>,
                     ox: nat, oy: nat, img: Image)
    requires g.w >= 1 && g.h >= 1 && Fits(g, ox, oy) && IsImage(g, img)
    requires IsBuffer(before) && IsBuffer(after) && |px| == |Scan(g, mask)|
    requires OnScreen(Scan(g, mask), ox, oy) && Painted(before, after, Scan(g, mask), px, ox, oy)
    requires Shows(before, g, ox, oy, img)
    ensures Shows(after, g, ox, oy, Apply(g, img, mask, px))
  {
    var img' := Apply(g, img, mask, px);
    forall x, y | 0 <= x < g.w && 0 <= y < g.h
      ensures Lit(after[WordRow(y + oy)][WordCol(x + ox, y + oy)], WordBit(x + ox)) == img'[y][x]
    {
      PixelShows(before, after, g, mask, px, ox, oy, img, x, y);
    }
  }

  /** The frame a buffer shows in the window at (ox, oy): the bit of each frame pixel. */
  function Seen(words: seq<seq<bv16>>, g: Geometry, ox: nat, oy: nat): (img: Image)
    requires IsBuffer(words) && Fits(g, ox, oy)
    ensures IsImage(g, img)
  {
    seq(g.h, y requires 0 <= y < g.h =>
      seq(g.w, x requires 0 <= x < g.w =>
        AddressOfPixel(x + ox, y + oy);
        Lit(words[WordRow(y + oy)][WordCol(x + ox, y + oy)], WordBit(x + ox))))
  }

  /** Every buffer shows the frame Seen reads from it. */
  lemma {:induction false} SeenShows(words: seq<seq<bv16>>, g: Geometry, ox: nat, oy: nat)
    requires IsBuffer(words) && Fits(g, ox, oy)
    ensures Shows(words, g, ox, oy, Seen(words, g, ox, oy))
  {
    var img := Seen(words, g, ox, oy);
    forall x, y | 0 <= x < g.w && 0 <= y < g.h
      ensures Lit(words[WordRow(y + oy)][WordCol(x + ox, y + oy)], WordBit(x + ox)) == img[y][x]
    {
      AddressOfPixel(x + ox, y + oy);
      assert img[y][x] == Lit(words[WordRow(y + oy)][WordCol(x + ox, y + oy)], WordBit(x + ox));
    }
  }

  /** One frame pixel of PaintedShows, read from the painted buffer. */
  lemma {:induction false} PixelShows(before: seq<seq<bv16>>, after: seq<seq<bv16>>, g: Geometry, mask: nat, px: seq<bool>,
                   ox: nat, oy: nat, img: Image, x: nat, y: nat)
    requires g.w >= 1 && g.h >= 1 && Fits(g, ox, oy) && IsImage(g, img) && x < g.w && y < g.h
    requires IsBuffer(before) && IsBuffer(after) && |px| == |Scan(g, mask)|
    requires OnScreen(Scan(g, mask), ox, oy) && Painted(before, after, Scan(g, mask), px, ox, oy)
    requires Lit(before[WordRow(y + oy)][WordCol(x + ox, y + oy)], WordBit(x + ox)) == img[y][x]
    ensures Lit(after[WordRow(y + oy)][WordCol(x + ox, y + oy)], WordBit(x + ox)) == Apply(g, img, mask, px)[y][x]
  {
    AddressOfPixel(x + ox, y + oy);
    var r, c := WordRow(y + oy), WordCol(x + ox, y + oy);
    PixelPainted(before[r][c], after[r][c], g, mask, px, ox, oy, img, x, y);
  }

  /** One frame pixel of PaintedShows: the word holding it, before and after painting. */
  lemma {:induction false} PixelPainted(w0: bv16, w1: bv16, g: Geometry, mask: nat, px: seq<bool>,
                     ox: nat, oy: nat, img: Image, x: nat, y: nat)
    requires g.w >= 1 && g.h >= 1 && Fits(g, ox, oy) && IsImage(g, img) && x < g.w && y < g.h
    requires |px| == |Scan(g, mask)| && OnScreen(Scan(g, mask), ox, oy)
    requires w1 == WordAfter(w0, Scan(g, mask), px, ox, oy, WordRow(y + oy), WordCol(x + ox, y + oy))
    requires Lit(w0, WordBit(x + ox)) == img[y][x]
    ensures Lit(w1, WordBit(x + ox)) == Apply(g, img, mask, px)[y][x]
  {
    LitAfter(w0, w1, Scan(g, mask), px, ox, oy, x, y);
  }

  /** The bit of frame pixel (x, y) after painting is the last colour written there, or the old bit. */
  lemma {:induction false} LitAfter(w0: bv16, w1: bv16, cs: seq<(nat, nat)>, px: seq<bool>, ox: nat, oy: nat, x: nat, y: nat)
    requires |px| == |cs| && OnScreen(cs, ox, oy) && x + ox < ScreenWidth && y + oy < ScreenHeight
    requires w1 == WordAfter(w0, cs, px, ox, oy, WordRow(y + oy), WordCol(x + ox, y + oy))
    ensures Lit(w1, WordBit(x + ox)) == LastWrite(Lit(w0, WordBit(x + ox)), cs, px, x, y)
  {
    var sx, sy := x + ox, y + oy;
    AddressOfPixel(sx, sy);
    WordAfterBit(w0, cs, px, ox, oy, WordRow(sy), WordCol(sx, sy), WordBit(sx));
    assert px[..|cs|] == px;
  }

  /** Painting one frame's pixels changes no bit outside the frame's window. */
  lemma {:induction false} PaintedOutside(before: seq<seq<bv16>>, after: seq<seq<bv16>>, g: Geometry, mask: nat, px: seq<bool>,
                       ox: nat, oy: nat, r: nat, c: nat, b: nat)
    requires g.w >= 1 && g.h >= 1 && r < BufRows && c < BufCols && b < 16
    requires IsBuffer(before) && IsBuffer(after) && |px| == |Scan(g, mask)|
    requires OnScreen(Scan(g, mask), ox, oy) && Painted(before, after, Scan(g, mask), px, ox, oy)
    requires Outside(g, ox, oy, ScreenX(c, b), ScreenY(r, c))
    ensures Lit(after[r][c], b) == Lit(before[r][c], b)
  {
    WordKept(before[r][c], after[r][c], g, mask, px, ox, oy, r, c, b);
  }

  /** One word of PaintedOutside, before and after painting. */
  lemma {:induction false} WordKept(w0: bv16, w1: bv16, g: Geometry, mask: nat, px: seq<bool>, ox: nat, oy: nat, r: nat, c: nat, b: nat)
    requires g.w >= 1 && g.h >= 1 && r < BufRows && c < BufCols && b < 16
    requires |px| == |Scan(g, mask)| && OnScreen(Scan(g, mask), ox, oy)
    requires w1 == WordAfter(w0, Scan(g, mask), px, ox, oy, r, c)
    requires Outside(g, ox, oy, ScreenX(c, b), ScreenY(r, c))
    ensures Lit(w1, b) == Lit(w0, b)
  {
    var cs := Scan(g, mask);
    WordAfterBit(w0, cs, px, ox, oy, r, c, b);
    assert px[..|cs|] == px;
    if ox <= ScreenX(c, b) && oy <= ScreenY(r, c) {
      var x, y := ScreenX(c, b) - ox, ScreenY(r, c) - oy;
      ScanMembers(g, mask, x, y);
      var i := LastWriteIndex(Lit(w0, b), cs, px, x, y);
    }
  }
}
