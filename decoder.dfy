/**
 * The embedded decoder (src/decoder.cpp, include/decoder.h): a byte/bit
 * cursor over the video data linked into the firmware, an unchecked and a
 * bounded bit reader, the run length reader, and read_frame, which follows
 * the encoder's chunk-skipping scan and sets or clears one bit of the
 * 32 x 16 word frame buffer per visited pixel.
 */
module Decoder {
  import opened Bits
  import opened Opt
  import opened StartStepStop
  import opened RunLength
  import opened Chunks
  import opened Playback
  import opened LcdLayout

  /**
   * FRAME_OFFSET_X and FRAME_OFFSET_Y: `(screen - size) / 2` in int
   * arithmetic (truncating towards zero) stored in a uint8_t. A frame that
   * fits is centred, the odd pixel going to the right or bottom margin; a
   * frame wider than the screen wraps to 256 minus half the excess.
   */
  function CentreOffset(screen: nat, size: Byte): (r: Byte)
    requires screen <= ScreenWidth
    ensures size <= screen ==> size + 2 * r <= screen <= size + 2 * r + 1
    ensures size > screen ==> (r + (size - screen) / 2) % 256 == 0
  {
    if size <= screen then (screen - size) / 2 else (256 - (size - screen) / 2) % 256
  }

  /** CHUNK_WIDTH and CHUNK_HEIGHT: `(size - 1) / 8 + 1` in int arithmetic, so 1 for size 0. */
  function ChunkSize(size: Byte): (r: nat)
    ensures size >= 1 ==> 8 * (r - 1) < size <= 8 * r
    ensures size == 0 ==> r == 1
  {
    if size == 0 then 1 else (size - 1) / ChunkCountX + 1
  }

  class VideoDecoder {
    /** `viddata`: the encoded video, width and height bytes first. */
    const viddata: seq<Byte>
    /** The byte being read and the number of its bits not yet read. */
    var byteIdx: nat
    var bitIdx: nat
    const W: Byte
    const H: Byte
    const OX: Byte
    const OY: Byte
    const CW: nat
    const CH: nat
    var firstFrame: bool

    /** The bits of the video data, each byte most significant bit first. */
    function Stream(): seq<bool>
    {
      BitsOfBytes(viddata)
    }

    /** The frame size read from the first two bytes. */
    function G(): Geometry
    {
      Geometry(W, H)
    }

    /**
     * The constants: the frame size is the first two bytes, and the offsets
     * and chunk sizes follow from it.
     */
    ghost predicate Sized()
    {
      |viddata| >= 2 && W == viddata[0] && H == viddata[1]
      && OX == CentreOffset(ScreenWidth, W) && OY == CentreOffset(ScreenHeight, H)
      && CW == ChunkSize(W) && CH == ChunkSize(H)
    }

    /**
     * The cursor: bit_idx counts down from 8 and is reset (with byte_idx
     * moving on) when it reaches 0; once the data is used up it rests at 8.
     */
    ghost predicate Valid()
      reads this
    {
      Sized() && 1 <= bitIdx <= 8 && byteIdx <= |viddata| && (byteIdx == |viddata| ==> bitIdx == 8)
    }

    /** The position of the next bit to read in Stream(). */
    function Pos(): nat
      requires 1 <= bitIdx <= 8
      reads this
    {
      8 * byteIdx + 8 - bitIdx
    }

    /** The cursor never passes the end of the data, and stands inside it exactly while byte_idx does. */
    lemma {:induction false} CursorBounds()
      requires Valid()
      ensures Pos() <= |Stream()|
      ensures byteIdx < |viddata| <==> Pos() < |Stream()|
    {
    }

    /**
     * The initializer list: FRAME_WIDTH and FRAME_HEIGHT are the first two
     * `read_bits(8)`, i.e. the first two bytes, and the offsets and chunk
     * sizes follow from them; the cursor starts at byte 0 with 8 bits left
     * and is left after the two bytes.
     */
    constructor (data: seq<Byte>)
      requires |data| >= 2
      ensures viddata == data && Valid() && firstFrame
      ensures W == ValueAt(Stream(), 0, 8) && H == ValueAt(Stream(), 8, 8)
      ensures byteIdx == 2 && bitIdx == 8 && Pos() == 16
    {
      viddata := data;
      W := data[0];
      H := data[1];
      OX := CentreOffset(ScreenWidth, data[0]);
      OY := CentreOffset(ScreenHeight, data[1]);
      CW := ChunkSize(data[0]);
      CH := ChunkSize(data[1]);
      byteIdx := 2;
      bitIdx := 8;
      firstFrame := true;
      new;
      ByteBits(data, 0);
      ByteBits(data, 1);
    }

    /** read_bit: `viddata[byte_idx] & (1 << --bit_idx)`, then move to the next byte after its last bit. */
    method ReadBit() returns (bit: bool)
      requires Valid() && byteIdx < |viddata|
      modifies this
      ensures Valid() && firstFrame == old(firstFrame)
      ensures Pos() == old(Pos()) + 1 && bit == Stream()[old(Pos())]
      ensures old(bitIdx) == 1 ==> byteIdx == old(byteIdx) + 1 && bitIdx == 8
      ensures old(bitIdx) > 1 ==> byteIdx == old(byteIdx) && bitIdx == old(bitIdx) - 1
    {
      BytePosition(byteIdx, 8 - bitIdx);
      BitsOfBytesAt(viddata, Pos());
      bitIdx := bitIdx - 1;
      bit := Bit(viddata[byteIdx], bitIdx);
      if bitIdx == 0 {
        bitIdx := 8;
        byteIdx := byteIdx + 1;
      }
    }

    /**
     * The unchecked `read_bits(count)`: count bits as an MSB-first number;
     * the caller must know the data holds them.
     */
    method ReadBitsUnchecked(count: nat) returns (out: nat)
      requires Valid() && count <= 64 && Pos() + count <= |Stream()|
      modifies this
      ensures Valid() && firstFrame == old(firstFrame)
      ensures Pos() == old(Pos()) + count && out == ValueAt(Stream(), old(Pos()), count)
    {
      ghost var p0 := Pos();
      out := 0;
      var i := 0;
      while i < count
        invariant i <= count && Valid() && firstFrame == old(firstFrame)
        invariant Pos() == p0 + i && out == ValueAt(Stream(), p0, i)
      {
        CursorBounds();
        var bit := ReadBit();
        out := 2 * out + (if bit then 1 else 0);
        i := i + 1;
      }
    }

    /**
     * The bounded `read_bits<T>(count, out)`: reads bit after bit and gives
     * up, returning false, when the data is used up before the last of the
     * count bits; running out on the last bit is still success. It never
     * reads past the data: it fails exactly when fewer than count bits are
     * left, and then leaves the cursor at the end with the bits there were
     * in out.
     */
    method ReadBits(count: nat) returns (ok: bool, out: nat)
      requires Valid() && count <= 64 && (count == 0 || byteIdx < |viddata|)
      modifies this
      ensures Valid() && firstFrame == old(firstFrame)
      ensures ok <==> old(Pos()) + count <= |Stream()|
      ensures ok ==> Pos() == old(Pos()) + count && out == ValueAt(Stream(), old(Pos()), count)
      ensures !ok ==> Pos() == |Stream()| && out == ValueAt(Stream(), old(Pos()), |Stream()| - old(Pos()))
    {
      ghost var p0 := Pos();
      out := 0;
      var i := 0;
      while i < count
        invariant i <= count && Valid() && firstFrame == old(firstFrame)
        invariant Pos() == p0 + i && out == ValueAt(Stream(), p0, i)
        invariant i < count ==> byteIdx < |viddata|
      {
        var bit := ReadBit();
        out := 2 * out + (if bit then 1 else 0);
        if byteIdx >= |viddata| && i < count - 1 {
          ok := false;
          return;
        }
        i := i + 1;
      }
      CursorBounds();
      ok := true;
    }

    /**
     * read_repeat_count: one bit per group until a zero bit, then the
     * group's value bits through the bounded reader (its result unused),
     * plus OFFSETS[groups - 1] + 1. With no range check of its own it needs
     * the whole code inside the data; it then reads exactly the run that
     * ReadRun reads.
     */
    method ReadRepeatCount() returns (repeat: nat)
      requires Valid() && ReadRun(Stream(), Pos()).Some?
      modifies this
      ensures Valid() && firstFrame == old(firstFrame)
      ensures ReadRun(Stream(), old(Pos())) == Some((repeat, Pos()))
    {
      var groups := CountGroups();
      ReadRunStop(Stream(), Pos() - 1, groups);
      CursorBounds();
      var ok, value := ReadBits(groups * GroupSize);
      repeat := value + Offset(groups - 1) + 1;
    }

    /**
     * The first loop of read_repeat_count: one more group for every one
     * bit, up to and including the zero bit. What is left of the code is
     * what ReadRunFrom reads after that bit with that many groups.
     */
    method CountGroups() returns (groups: nat)
      requires Valid() && ReadRun(Stream(), Pos()).Some?
      modifies this
      ensures Valid() && firstFrame == old(firstFrame) && groups >= 1 && 1 <= Pos() <= |Stream()|
      ensures !Stream()[Pos() - 1] && ReadRunFrom(Stream(), Pos() - 1, groups) == ReadRun(Stream(), old(Pos()))
    {
      ghost var s := Stream();
      ghost var r0 := ReadRun(s, Pos());
      groups := 1;
      CursorBounds();
      var more := ReadBit();
      while more
        invariant Valid() && firstFrame == old(firstFrame) && groups >= 1 && 1 <= Pos() <= |s|
        invariant more == s[Pos() - 1] && ReadRunFrom(s, Pos() - 1, groups) == r0
        decreases |s| - Pos()
      {
        groups, more := GroupStep(groups);
      }
    }

    /** One more round of `groups++` and a bit read after a one bit keeps the code's reading unchanged. */
    method GroupStep(groups: nat) returns (groups': nat, more: bool)
      requires Valid() && groups >= 1 && 1 <= Pos() <= |Stream()|
      requires Stream()[Pos() - 1] && ReadRunFrom(Stream(), Pos() - 1, groups).Some?
      modifies this
      ensures Valid() && firstFrame == old(firstFrame) && Pos() == old(Pos()) + 1 && Pos() <= |Stream()|
      ensures groups' == groups + 1 && more == Stream()[Pos() - 1]
      ensures ReadRunFrom(Stream(), Pos() - 1, groups') == ReadRunFrom(Stream(), old(Pos()) - 1, groups)
    {
      ReadRunMore(Stream(), Pos() - 1, groups);
      CursorBounds();
      groups' := groups + 1;
      more := ReadBit();
    }

    /**
     * The frame buffer a call may paint is 32 x 16 words, and the frame is
     * at least one pixel each way and fits the 128 x 64 screen (a larger
     * one would index past the buffer).
     */
    ghost predicate Drawable(frame: array2<bv16>)
      reads this
    {
      frame.Length0 == BufRows && frame.Length1 == BufCols && 1 <= W <= ScreenWidth && 1 <= H <= ScreenHeight
    }

    /** A frame of the given mask can be read at the cursor without running past the data. */
    ghost predicate PixelsReadable(mask: nat)
      reads this
      requires Valid() && W >= 1 && H >= 1
    {
      mask != 0 ==> DecodeFrame(Stream(), Pos(), |Scan(G(), mask)|).Some?
    }

    /**
     * `read_frame(frame, header)`: nothing for a zero header; otherwise the
     * start colour and the first run length, then the scan of the changed
     * chunks, column by column, skipping unchanged bands at their top row;
     * each visited pixel takes the current colour, which flips, with a new
     * run length read, when the run is used up. The cursor ends after the
     * last run code read and the buffer is the old one with the decoded
     * colours painted along the scan. It always returns true.
     */
    method ReadFrameMasked(frame: array2<bv16>, header: nat) returns (ok: bool)
      requires Valid() && Drawable(frame) && PixelsReadable(header)
      modifies this, frame
      ensures Valid() && ok && firstFrame == old(firstFrame)
      ensures header == 0 ==> Pos() == old(Pos()) && Grid(frame) == old(Grid(frame))
      ensures header != 0 ==>
        var (px, next) := DecodeFrame(Stream(), old(Pos()), |Scan(G(), header)|).value;
        Pos() == next && OnScreen(Scan(G(), header), OX, OY)
        && Painted(old(Grid(frame)), Grid(frame), Scan(G(), header), px, OX, OY)
    {
      if header == 0 {
        return true;
      }
      ghost var cs := Scan(G(), header);
      ghost var before := Grid(frame);
      ScanOnScreen(G(), header, OX, OY);
      var current, repeat, px, fin := StartFrame(header);
      PaintScan(frame, header, current, repeat, px, fin, before);
      SoFarPainted(frame, before, cs, px);
      ok := true;
    }

    /**
     * The start of a frame's pixel data: the first colour bit and the first
     * run length, which begin the decoding of the frame's pixels.
     */
    method StartFrame(header: nat) returns (current: bool, repeat: nat, ghost px: seq<bool>, ghost fin: RunState)
      requires Valid() && 1 <= W && 1 <= H && PixelsReadable(header) && header != 0
      modifies this
      ensures Valid() && firstFrame == old(firstFrame)
      ensures DecodeFrame(Stream(), old(Pos()), |Scan(G(), header)|) == Some((px, fin.pos))
      ensures Decoding(Stream(), current, repeat, Pos(), px, fin, 0)
    {
      ghost var s := Stream();
      ghost var p0 := Pos();
      CursorBounds();
      current := ReadBit();
      repeat := ReadRepeatCount();
      px, fin := FrameStart(s, p0, |Scan(G(), header)|, RunState(current, repeat, Pos()));
    }

    /** The column loop of read_frame: every pixel of the scan, in order, takes its decoded colour. */
    method PaintScan(frame: array2<bv16>, header: nat, current0: bool, repeat0: nat,
                     ghost px: seq<bool>, ghost fin: RunState, ghost before: seq<seq<bv16>>)
      requires Valid() && Drawable(frame) && |px| == |Scan(G(), header)|
      requires Decoding(Stream(), current0, repeat0, Pos(), px, fin, 0)
      requires SoFar(frame, before, [], px, OX, OY)
      modifies this, frame
      ensures Valid() && firstFrame == old(firstFrame)
      ensures Pos() == fin.pos
      ensures SoFar(frame, before, Scan(G(), header), px, OX, OY)
    {
      ghost var g := G();
      ghost var cs := Scan(g, header);
      ghost var visited: seq<(nat, nat)> := [];
      var current, repeat := current0, repeat0;
      var x: nat := 0;
      while x < W
        invariant x <= W && Valid() && firstFrame == old(firstFrame)
        invariant visited + ScanFrom(g, header, x, 0) == cs
        invariant Decoding(Stream(), current, repeat, Pos(), px, fin, |visited|)
        invariant SoFar(frame, before, visited, px, OX, OY)
      {
        current, repeat, visited := ReadColumn(frame, header, x, current, repeat, px, fin, before, visited);
        x := x + 1;
      }
      assert visited == cs;
      DecodedAll(Stream(), current, repeat, Pos(), px, fin);
    }

    /**
     * One column of read_frame's scan, top to bottom: at the top row of a
     * band whose chunk is unchanged the band is skipped, every other pixel
     * is visited. The pixels visited are the column's part of the scan.
     */
    method ReadColumn(frame: array2<bv16>, header: nat, x: nat, current: bool, repeat: nat,
                      ghost px: seq<bool>, ghost fin: RunState, ghost before: seq<seq<bv16>>, ghost visited: seq<(nat, nat)>)
      returns (current': bool, repeat': nat, ghost visited': seq<(nat, nat)>)
      requires Valid() && Drawable(frame) && x < W
      requires visited + ScanFrom(G(), header, x, 0) == Scan(G(), header) && |px| == |Scan(G(), header)|
      requires Decoding(Stream(), current, repeat, Pos(), px, fin, |visited|)
      requires SoFar(frame, before, visited, px, OX, OY)
      modifies this, frame
      ensures Valid() && firstFrame == old(firstFrame)
      ensures visited' + ScanFrom(G(), header, x + 1, 0) == Scan(G(), header)
      ensures Decoding(Stream(), current', repeat', Pos(), px, fin, |visited'|)
      ensures SoFar(frame, before, visited', px, OX, OY)
    {
      ghost var g := G();
      ghost var cs := Scan(g, header);
      assert CH == g.Ch();
      current', repeat', visited' := current, repeat, visited;
      var y: nat := 0;
      while y < H
        invariant y < H + CH && Valid() && firstFrame == old(firstFrame)
        invariant InBand(g, header, x, y)
        invariant visited' + ScanFrom(g, header, x, y) == cs
        invariant Decoding(Stream(), current', repeat', Pos(), px, fin, |visited'|)
        invariant SoFar(frame, before, visited', px, OX, OY)
      {
        current', repeat', visited', y := ReadStep(frame, header, x, y, current', repeat', px, fin, before, visited');
      }
      ColumnEnd(g, header, x, y);
    }

    /**
     * One step of read_frame's inner loop at (x, y): at the top of a chunk
     * whose mask bit is clear, skip to the next chunk; otherwise read the
     * next colour and paint the pixel.
     */
    method ReadStep(frame: array2<bv16>, header: nat, x: nat, y: nat, current: bool, repeat: nat,
                    ghost px: seq<bool>, ghost fin: RunState, ghost before: seq<seq<bv16>>, ghost visited: seq<(nat, nat)>)
      returns (current': bool, repeat': nat, ghost visited': seq<(nat, nat)>, y': nat)
      requires Valid() && Drawable(frame) && x < W && y < H && InBand(G(), header, x, y)
      requires visited + ScanFrom(G(), header, x, y) == Scan(G(), header) && |px| == |Scan(G(), header)|
      requires Decoding(Stream(), current, repeat, Pos(), px, fin, |visited|)
      requires SoFar(frame, before, visited, px, OX, OY)
      modifies this, frame
      ensures Valid() && firstFrame == old(firstFrame) && y < y' < H + CH && InBand(G(), header, x, y')
      ensures visited' + ScanFrom(G(), header, x, y') == Scan(G(), header)
      ensures Decoding(Stream(), current', repeat', Pos(), px, fin, |visited'|)
      ensures SoFar(frame, before, visited', px, OX, OY)
    {
      ChunkHeight();
      if y % CH == 0 && !Bit(header, ChunkOf(G(), x, y)) {
        current', repeat', visited', y' := current, repeat, visited, y + CH;
        SkipBand(header, visited, x, y);
      } else {
        VisibleUnlessSkipped(header, x, y);
        current', repeat', visited', y' := VisitScanned(frame, header, x, y, current, repeat, px, fin, before, visited);
      }
    }

    /** The chunk height is the geometry's, and at least 1. */
    lemma {:induction false} ChunkHeight()
      requires Sized() && 1 <= H
      ensures CH == G().Ch() && CH >= 1
    {
    }

    /** The skip of an unchanged band, in the decoder's constants. */
    lemma {:induction false} SkipBand(header: nat, visited: seq<(nat, nat)>, x: nat, y: nat)
      requires Sized() && 1 <= W && 1 <= H && x < W && y < H && y % CH == 0 && !Bit(header, ChunkOf(G(), x, y))
      requires visited + ScanFrom(G(), header, x, y) == Scan(G(), header)
      ensures visited + ScanFrom(G(), header, x, y + CH) == Scan(G(), header)
      ensures InBand(G(), header, x, y + CH)
    {
      SkipStep(G(), header, visited, x, y);
    }

    /** A pixel the inner loop does not skip lies in a changed chunk. */
    lemma {:induction false} VisibleUnlessSkipped(header: nat, x: nat, y: nat)
      requires Sized() && 1 <= W && 1 <= H && y < H && InBand(G(), header, x, y)
      requires !(y % CH == 0 && !Bit(header, ChunkOf(G(), x, y)))
      ensures Visible(G(), header, x, y)
    {
      if y % CH != 0 {
        InBandVisible(G(), header, x, y);
      }
    }

    /** The visit of a pixel of a changed chunk, in its place in the scan. */
    method VisitScanned(frame: array2<bv16>, header: nat, x: nat, y: nat, current: bool, repeat: nat,
                        ghost px: seq<bool>, ghost fin: RunState, ghost before: seq<seq<bv16>>, ghost visited: seq<(nat, nat)>)
      returns (current': bool, repeat': nat, ghost visited': seq<(nat, nat)>, y': nat)
      requires Valid() && Drawable(frame) && x < W && y < H && Visible(G(), header, x, y)
      requires visited + ScanFrom(G(), header, x, y) == Scan(G(), header) && |px| == |Scan(G(), header)|
      requires Decoding(Stream(), current, repeat, Pos(), px, fin, |visited|)
      requires SoFar(frame, before, visited, px, OX, OY)
      modifies this, frame
      ensures Valid() && firstFrame == old(firstFrame) && y' == y + 1 && InBand(G(), header, x, y')
      ensures visited' + ScanFrom(G(), header, x, y') == Scan(G(), header)
      ensures Decoding(Stream(), current', repeat', Pos(), px, fin, |visited'|)
      ensures SoFar(frame, before, visited', px, OX, OY)
    {
      ScanStep(G(), header, visited, x, y);
      visited', y' := visited + [(x, y)], y + 1;
      current', repeat' := VisitPixel(frame, x, y, current, repeat, px, fin, before, visited);
    }

    /**
     * One visited pixel, the body of read_frame's inner loop below the
     * chunk test: the next colour from the run-length reader, painted at
     * (x, y); the colour is the next of px and the buffer has one more
     * pixel painted.
     */
    method VisitPixel(frame: array2<bv16>, x: nat, y: nat, current: bool, repeat: nat,
                      ghost px: seq<bool>, ghost fin: RunState, ghost before: seq<seq<bv16>>, ghost visited: seq<(nat, nat)>)
      returns (current': bool, repeat': nat)
      requires Valid() && |visited| < |px| && x + OX < ScreenWidth && y + OY < ScreenHeight
      requires Decoding(Stream(), current, repeat, Pos(), px, fin, |visited|)
      requires SoFar(frame, before, visited, px, OX, OY)
      modifies this, frame
      ensures Valid() && firstFrame == old(firstFrame) && current' == px[|visited|]
      ensures Decoding(Stream(), current', repeat', Pos(), px, fin, |visited| + 1)
      ensures SoFar(frame, before, visited + [(x, y)], px, OX, OY)
    {
      ghost var st := RunState(current, repeat, Pos());
      DecodingStep(Stream(), st, st, px, fin, |visited|);
      current', repeat' := NextColour(current, repeat);
      DecodingStep(Stream(), st, RunState(current', repeat', Pos()), px, fin, |visited|);
      ghost var prior := Grid(frame);
      PaintPixel(frame, x, y, current', prior);
      OnScreenNext(visited, x, y, OX, OY);
      PaintedBufNext(before, visited, px, x, y, OX, OY);
    }

    /** Words of the buffer after the pixels visited so far. */
    ghost predicate SoFar(frame: array2<bv16>, before: seq<seq<bv16>>, visited: seq<(nat, nat)>, px: seq<bool>, ox: nat, oy: nat)
      reads frame
    {
      frame.Length0 == BufRows && frame.Length1 == BufCols && IsBuffer(before)
      && |visited| <= |px| && OnScreen(visited, ox, oy)
      && Grid(frame) == PaintedBuf(before, visited, px, ox, oy)
    }

    /** Once every pixel of the scan is painted, the buffer is the painted one. */
    lemma {:induction false} SoFarPainted(frame: array2<bv16>, before: seq<seq<bv16>>, cs: seq<(nat, nat)>, px: seq<bool>)
      requires SoFar(frame, before, cs, px, OX, OY) && |cs| == |px|
      ensures Painted(before, Grid(frame), cs, px, OX, OY)
    {
      PaintedBufPainted(before, cs, px, OX, OY);
    }

    /**
     * `if (repeat == 0) { current = !current; repeat = read_repeat_count(); }
     * repeat--;`: one step of the run-length reader.
     */
    method NextColour(current: bool, repeat: nat) returns (current': bool, repeat': nat)
      requires Valid() && Step(Stream(), RunState(current, repeat, Pos())).Some?
      modifies this
      ensures Valid() && firstFrame == old(firstFrame)
      ensures Step(Stream(), RunState(current, repeat, old(Pos()))) == Some(RunState(current', repeat', Pos()))
    {
      current', repeat' := current, repeat;
      if repeat' == 0 {
        current' := !current';
        repeat' := ReadRepeatCount();
      }
      repeat' := repeat' - 1;
    }

    /**
     * The pixel update of read_frame: the word and bit of frame pixel
     * (x, y), the bottom half of the screen folded into words 8..15, set
     * (`|= 1 << offset`) or cleared (`&= ~(1 << offset)`), as PaintWord does.
     */
    method PaintPixel(frame: array2<bv16>, x: nat, y: nat, current: bool, ghost prior: seq<seq<bv16>>)
      requires frame.Length0 == BufRows && frame.Length1 == BufCols
      requires x + OX < ScreenWidth && y + OY < ScreenHeight && prior == Grid(frame)
      modifies frame
      ensures Grid(frame) == PaintBuf(prior, x + OX, y + OY, current)
    {
      var lcdRow := y + OY;
      var lcdCol := (x + OX) / 16;
      var lcdColOffset := 15 - (x + OX) % 16;
      if lcdRow >= 32 {
        lcdRow := lcdRow - 32;
        lcdCol := lcdCol + 128 / 16;
      }
      AddressOfPixel(x + OX, y + OY);
      assert lcdRow == WordRow(y + OY) && lcdCol == WordCol(x + OX, y + OY) && lcdColOffset == WordBit(x + OX);
      var w := PaintWord(frame[lcdRow, lcdCol], lcdColOffset, current);
      frame[lcdRow, lcdCol] := w;
      BufferStore(prior, Grid(frame), lcdRow, lcdCol, w);
    }

    /**
     * What the next read_frame call may read: the first frame's pixel data
     * at the cursor; for a later frame, the cursor inside the data (the
     * bounded reader reads a bit before its check) and, when a whole header
     * is there, the pixel data it announces.
     */
    ghost predicate NextReadable()
      reads this
      requires Valid() && W >= 1 && H >= 1
    {
      if firstFrame then PixelsReadable(FullMask)
      else
        Pos() < |Stream()|
        && match Header(Stream(), Pos())
           case None => true
           case Some(mask) => FramePixels(G(), Stream(), Pos() + ChunkCount, mask).Some?
    }

    /**
     * `read_frame(frame)`: the first call reads a frame with every chunk
     * changed and no header; every later call reads a 64-bit header with
     * the bounded reader, returning false when the data ends inside it,
     * and then that frame. What it reads and paints is Video's step.
     */
    method ReadFrame(frame: array2<bv16>) returns (ok: bool)
      requires Valid() && Drawable(frame) && NextReadable()
      modifies this, frame
      ensures Valid() && !firstFrame
      ensures old(firstFrame) ==> ok
      ensures old(firstFrame) ==>
        var (px, next) := DecodeFrame(Stream(), old(Pos()), |Scan(G(), FullMask)|).value;
        Pos() == next && OnScreen(Scan(G(), FullMask), OX, OY)
        && Painted(old(Grid(frame)), Grid(frame), Scan(G(), FullMask), px, OX, OY)
      ensures !old(firstFrame) ==> (ok <==> Header(Stream(), old(Pos())).Some?)
      ensures !old(firstFrame) && !ok ==> Pos() == |Stream()| && Grid(frame) == old(Grid(frame))
      ensures !old(firstFrame) && ok ==>
        var mask := Header(Stream(), old(Pos())).value;
        var (px, next) := FramePixels(G(), Stream(), old(Pos()) + ChunkCount, mask).value;
        Pos() == next && OnScreen(Scan(G(), mask), OX, OY)
        && Painted(old(Grid(frame)), Grid(frame), Scan(G(), mask), px, OX, OY)
    {
      if firstFrame {
        firstFrame := false;
        ok := ReadFrameMasked(frame, FullMask);
        return;
      }
      var header;
      ok, header := ReadBits(ChunkCount);
      if !ok {
        return false;
      }
      ok := ReadFrameMasked(frame, header);
      if header == 0 {
        ScanOnScreen(G(), 0, OX, OY);
        EmptyMask(G());
      }
    }

    /** The window of the frame lies on the screen. */
    lemma {:induction false} WindowFits()
      requires Sized() && 1 <= W <= ScreenWidth && 1 <= H <= ScreenHeight
      ensures Fits(G(), OX, OY)
    {
    }

    /**
     * The first read_frame of a video: whatever the buffer held before, it
     * then shows Video's first frame, and Play from the cursor gives the
     * video's other frames.
     */
    method ShowFirstFrame(frame: array2<bv16>, ghost blank: Image, ghost video: seq<Image>) returns (ok: bool)
      requires Valid() && Drawable(frame) && firstFrame && Pos() == 16 && IsImage(G(), blank)
      requires Video(G(), Stream(), blank) == Some(video)
      modifies this, frame
      ensures Valid() && !firstFrame && ok && Fits(G(), OX, OY)
      ensures Shows(Grid(frame), G(), OX, OY, video[0])
      ensures Play(G(), Stream(), Pos(), video[0]) == Some(video[1..])
    {
      WindowFits();
      ghost var g := G();
      ghost var b0 := Grid(frame);
      ghost var seen := Seen(b0, g, OX, OY);
      SeenShows(b0, g, OX, OY);
      ok := ReadFrame(frame);
      ghost var px := DecodeFrame(Stream(), 16, |Scan(g, FullMask)|).value.0;
      PaintedShows(b0, Grid(frame), g, FullMask, px, OX, OY, seen);
      ApplyFull(g, seen, blank, px);
    }

    /**
     * A later read_frame, one step of Play: with the buffer showing the
     * last frame, it fails exactly when Play has no frame left, and
     * otherwise the buffer shows Play's next frame and Play from the new
     * cursor gives the frames after it.
     */
    method ShowNextFrame(frame: array2<bv16>, ghost shown: Image, ghost rest: seq<Image>) returns (ok: bool)
      requires Valid() && Drawable(frame) && !firstFrame && Pos() < |Stream()|
      requires IsImage(G(), shown) && Fits(G(), OX, OY) && Shows(Grid(frame), G(), OX, OY, shown)
      requires Play(G(), Stream(), Pos(), shown) == Some(rest)
      modifies this, frame
      ensures Valid() && !firstFrame && (ok <==> rest != [])
      ensures !ok ==> Grid(frame) == old(Grid(frame))
      ensures ok ==> Shows(Grid(frame), G(), OX, OY, rest[0]) && Play(G(), Stream(), Pos(), rest[0]) == Some(rest[1..])
    {
      ghost var g := G();
      ghost var s := Stream();
      ghost var p0 := Pos();
      ghost var b0 := Grid(frame);
      PlayNext(g, s, p0, shown, rest);
      ok := ReadFrame(frame);
      ghost var b1 := Grid(frame);
      if ok {
        NextShows(g, s, p0, Pos(), shown, rest, b0, b1, OX, OY);
      }
    }
  }
  /**
   * A frame read by a later read_frame, as Play reads it, painted over a
   * buffer showing the last frame, leaves it showing Play's next frame.
   */
  lemma {:induction false} NextShows(g: Geometry, s: seq<bool>, p0: nat, p1: nat, shown: Image, rest: seq<Image>,
                                     before: seq<seq<bv16>>, after: seq<seq<bv16>>, ox: nat, oy: nat)
    requires g.w >= 1 && g.h >= 1 && IsImage(g, shown) && Fits(g, ox, oy) && p0 <= |s|
    requires IsBuffer(before) && IsBuffer(after) && Shows(before, g, ox, oy, shown)
    requires Play(g, s, p0, shown) == Some(rest) && Header(s, p0).Some?
    requires
      var mask := Header(s, p0).value;
      FramePixels(g, s, p0 + ChunkCount, mask).Some?
      && var (px, next) := FramePixels(g, s, p0 + ChunkCount, mask).value;
      p1 == next && OnScreen(Scan(g, mask), ox, oy) && Painted(before, after, Scan(g, mask), px, ox, oy)
    ensures rest != [] && IsImage(g, rest[0]) && Shows(after, g, ox, oy, rest[0])
    ensures p1 <= |s| && Play(g, s, p1, rest[0]) == Some(rest[1..])
  {
    PlayNext(g, s, p0, shown, rest);
    var mask := Header(s, p0).value;
    var px := FramePixels(g, s, p0 + ChunkCount, mask).value.0;
    PaintedShows(before, after, g, mask, px, ox, oy, shown);
  }
}
