/**
 * The host-side player (vidproc/vidunproc.cpp): bit_reader over the input
 * file, read_num, read_count, the read_frame lambda, which repaints a
 * W x H grey frame along the chunk-skipping scan, and main's sequencing of
 * the frames. The file is read with std::istream::get; its EOF (-1),
 * stored in a uint8_t, reads as 0xFF, so every bit past the end of the
 * file reads as 1.
 */
module HostDecoder {
  import opened Bits
  import opened Opt
  import opened StartStepStop
  import opened RunLength
  import opened Chunks
  import opened Playback

  /** Bit p of the file as bit_reader delivers it: a bit past the end reads as 1. */
  function HostBit(s: seq<bool>, p: nat): bool
  {
    if p < |s| then s[p] else true
  }

  /** The file's bits followed by k bits read past its end. */
  function Padded(s: seq<bool>, k: nat): (r: seq<bool>)
    ensures |r| == |s| + k
    ensures forall p :: 0 <= p < |r| ==> r[p] == HostBit(s, p)
  {
    s + Ones(k)
  }

  /** `uint8_t val = from.get()`: a byte stays itself, EOF (-1) becomes 0xFF. */
  function AsByte(c: int): (r: Byte)
    ensures 0 <= c < 256 ==> r == c
    ensures c == -1 ==> r == 0xFF
  {
    c % 256
  }

  /** What get() gives for byte i of the file, as a uint8_t. */
  function ByteOr(data: seq<Byte>, i: nat): Byte
  {
    if i < |data| then data[i] else 0xFF
  }

  /** Bit p of the file is bit 7 - p % 8 of the byte get() gives for byte p / 8, past the end too. */
  lemma {:induction false} HostBitOfByte(data: seq<Byte>, p: nat)
    ensures HostBit(BitsOfBytes(data), p) == Bit(ByteOr(data, p / 8), 7 - p % 8)
  {
    if p < 8 * |data| {
      BitsOfBytesAt(data, p);
    } else {
      Pow2Byte();
      AllOnesBit(8, 7 - p % 8);
    }
  }

  /** The std::ifstream the player reads: the file's bytes, the get position, and whether the stream is still good. */
  class InFile {
    const data: seq<Byte>
    var next: nat
    var good: bool

    ghost predicate Valid()
      reads this
    {
      next <= |data| && (!good ==> next == |data|)
    }

    constructor (contents: seq<Byte>)
      ensures data == contents && next == 0 && good && Valid()
    {
      data := contents;
      next := 0;
      good := true;
    }

    /** `get()`: the next byte; once the bytes are used up, EOF (-1) and a failed stream. */
    method Get() returns (c: int)
      requires Valid()
      modifies this
      ensures Valid()
      ensures old(good) && old(next) < |data| ==> c == data[old(next)] && next == old(next) + 1 && good
      ensures !(old(good) && old(next) < |data|) ==> c == -1 && next == old(next) && !good
    {
      if good && next < |data| {
        c := data[next];
        next := next + 1;
      } else {
        c := -1;
        good := false;
      }
    }
  }

  /**
   * bit_reader: the byte being read, val, and idx, its bits not yet read;
   * the next byte is fetched as soon as the last bit of val is read.
   */
  class BitReader {
    const from: InFile
    var val: Byte
    var idx: nat
    /** Bits of the file read so far, counting the width and height bytes. */
    ghost var pos: nat

    /** The bits of the file, each byte most significant bit first. */
    function Stream(): seq<bool>
    {
      BitsOfBytes(from.data)
    }

    /**
     * val is the byte holding bit pos, as get() gave it, and idx the bits of
     * it not yet read; the stream has read that byte and is still good
     * exactly when the byte lies inside the file.
     */
    ghost predicate Valid()
      reads this, from
    {
      from.Valid() && pos >= 16 && idx == 8 - pos % 8
      && val == ByteOr(from.data, pos / 8)
      && from.next == Min(pos / 8 + 1, |from.data|)
      && from.good == (pos / 8 < |from.data|)
    }

    /**
     * `bit_reader br(in_file)` after the width and height bytes were taken
     * by two get() calls: `val = from.get()`.
     */
    constructor (f: InFile)
      requires f.Valid() && f.next == Min(2, |f.data|) && f.good == (2 <= |f.data|)
      modifies f
      ensures from == f && Valid() && pos == 16
    {
      var c := f.Get();
      from := f;
      val := AsByte(c);
      idx := 8;
      pos := 16;
    }

    /** `operator()`: `val & (1 << --idx)`, and the next byte fetched after the last bit of val. */
    method ReadBit() returns (bit: bool)
      requires Valid()
      modifies this, from
      ensures Valid() && pos == old(pos) + 1
      ensures bit == HostBit(Stream(), old(pos))
    {
      HostBitOfByte(from.data, pos);
      idx := idx - 1;
      bit := Bit(val, idx);
      if idx == 0 {
        idx := 8;
        var c := from.Get();
        val := AsByte(c);
      }
      pos := pos + 1;
    }

    /**
     * The bits left to read: the unread bits of val and those of the bytes
     * after it while the stream is good, none once a get() has failed.
     */
    function Remaining(): (n: nat)
      requires Valid()
      reads this, from
      ensures n == if pos < |Stream()| then |Stream()| - pos else 0
    {
      if from.good then 8 * (|from.data| - from.next) + idx else 0
    }
  }

  /** from(), seen as reading the stream with k one bits appended. */
  method ReadPaddedBit(br: BitReader, ghost k: nat) returns (bit: bool)
    requires br.Valid() && br.pos < |br.Stream()| + k
    modifies br, br.from
    ensures br.Valid() && br.pos == old(br.pos) + 1
    ensures bit == Padded(br.Stream(), k)[old(br.pos)]
  {
    bit := br.ReadBit();
  }

  /** read_num: length bits, most significant first, `val = (val << 1) | bit`; length fits a size_t. */
  method ReadNum(length: nat, br: BitReader, ghost k: nat) returns (v: nat)
    requires br.Valid() && length <= 64 && br.pos + length <= |br.Stream()| + k
    modifies br, br.from
    ensures br.Valid() && br.pos == old(br.pos) + length
    ensures v == ValueAt(Padded(br.Stream(), k), old(br.pos), length)
  {
    ghost var s := Padded(br.Stream(), k);
    ghost var p0 := br.pos;
    v := 0;
    var i := 0;
    while i < length
      invariant i <= length && br.Valid() && br.pos == p0 + i
      invariant v == ValueAt(s, p0, i)
    {
      var bit := ReadPaddedBit(br, k);
      v := 2 * v + (if bit then 1 else 0);
      i := i + 1;
    }
  }

  /**
   * read_count: `do groups++; while (from() != 0)`, then read_num(groups *
   * GROUP_SIZE) + OFFSETS[groups - 1] + 1. With k bits allowed past the end
   * of the file, it reads exactly the run ReadRun reads there.
   */
  method ReadCount(br: BitReader, ghost k: nat) returns (result: nat)
    requires br.Valid() && ReadRun(Padded(br.Stream(), k), br.pos).Some?
    modifies br, br.from
    ensures br.Valid() && ReadRun(Padded(br.Stream(), k), old(br.pos)) == Some((result, br.pos))
  {
    var groups := CountGroups(br, k);
    ReadRunStop(Padded(br.Stream(), k), br.pos - 1, groups);
    var value := ReadNum(groups * GroupSize, br, k);
    result := value + Offset(groups - 1) + 1;
  }

  /**
   * The first loop of read_count, `do groups++; while (from() != 0)`: one
   * more group for every one bit, up to and including the zero bit.
   */
  method CountGroups(br: BitReader, ghost k: nat) returns (groups: nat)
    requires br.Valid() && ReadRun(Padded(br.Stream(), k), br.pos).Some?
    modifies br, br.from
    ensures br.Valid() && groups >= 1 && 1 <= br.pos <= |Padded(br.Stream(), k)|
    ensures !Padded(br.Stream(), k)[br.pos - 1]
    ensures ReadRunFrom(Padded(br.Stream(), k), br.pos - 1, groups) == ReadRun(Padded(br.Stream(), k), old(br.pos))
  {
    ghost var s := Padded(br.Stream(), k);
    ghost var r0 := ReadRun(s, br.pos);
    groups := 0;
    groups := groups + 1;
    var more := ReadPaddedBit(br, k);
    while more
      invariant br.Valid() && groups >= 1 && 1 <= br.pos <= |s|
      invariant more == s[br.pos - 1] && ReadRunFrom(s, br.pos - 1, groups) == r0
      decreases |s| - br.pos
    {
      groups, more := GroupStep(br, k, groups);
    }
  }

  /** One more round of `groups++; from()` after a one bit keeps the code's reading unchanged. */
  method GroupStep(br: BitReader, ghost k: nat, groups: nat) returns (groups': nat, more: bool)
    requires br.Valid() && groups >= 1 && 1 <= br.pos <= |Padded(br.Stream(), k)|
    requires Padded(br.Stream(), k)[br.pos - 1] && ReadRunFrom(Padded(br.Stream(), k), br.pos - 1, groups).Some?
    modifies br, br.from
    ensures br.Valid() && br.pos == old(br.pos) + 1 && br.pos <= |Padded(br.Stream(), k)| && groups' == groups + 1
    ensures more == Padded(br.Stream(), k)[br.pos - 1]
    ensures ReadRunFrom(Padded(br.Stream(), k), br.pos - 1, groups') == ReadRunFrom(Padded(br.Stream(), k), old(br.pos) - 1, groups)
  {
    ReadRunMore(Padded(br.Stream(), k), br.pos - 1, groups);
    groups' := groups + 1;
    more := ReadPaddedBit(br, k);
  }

  /** An all-ones stretch never ends a run code: the stop bit never comes. */
  lemma {:induction false} OnesNoRun(t: seq<bool>, p: nat, g: nat)
    requires g >= 1 && forall i :: p <= i < |t| ==> t[i]
    ensures ReadRunFrom(t, p, g) == None
    decreases |t| - p
  {
    if p < |t| && g <= MaxGroups {
      OnesNoRun(t, p + 1, g + 1);
    }
  }

  // ---------------------------------------------------------------------------
  // The grey frame

  /** A grey value the player shows as a set pixel: black, or black dimmed. */
  predicate Dark(b: Byte)
  {
    b == 0x00 || b == 0x28
  }

  /** The grey value written for a decoded colour: `current ? 0x00 : 0xff`. */
  function Shade(c: bool): (r: Byte)
    ensures Dark(r) == c && (r == 0x00 || r == 0xFF)
  {
    if c then 0x00 else 0xFF
  }

  /** SHOW_UNCHANGED_REGIONS: black becomes 0x28, white 0xC8, any other value stays. */
  function Dim(b: Byte): (r: Byte)
    ensures Dark(r) == Dark(b) && r != 0x00 && r != 0xFF
    ensures b != 0x00 && b != 0xFF ==> r == b
  {
    if b == 0x00 then 0x28 else if b == 0xFF then 0xC8 else b
  }

  /** The grey values of decoded colours. */
  function Shades(px: seq<bool>): (r: seq<Byte>)
    ensures |r| == |px| && forall i :: 0 <= i < |px| ==> r[i] == Shade(px[i])
  {
    seq(|px|, i requires 0 <= i < |px| => Shade(px[i]))
  }

  lemma {:induction false} ShadesSnoc(px: seq<bool>, i: nat)
    requires i < |px|
    ensures Shades(px[..i + 1]) == Shades(px[..i]) + [Shade(px[i])]
  {
    assert Shades(px[..i + 1])[i] == Shade(px[i]);
  }

  /** The frame (`cv::Mat frame(height, width, CV_8UC1)`) as rows of grey values. */
  function Cells(frame: array2<Byte>): (r: seq<seq<Byte>>)
    reads frame
    ensures |r| == frame.Length0 && forall y :: 0 <= y < |r| ==> |r[y]| == frame.Length1
    ensures forall y, x :: 0 <= y < frame.Length0 && 0 <= x < frame.Length1 ==> r[y][x] == frame[y, x]
  {
    seq(frame.Length0, y requires 0 <= y < frame.Length0 reads frame =>
      seq(frame.Length1, x requires 0 <= x < frame.Length1 reads frame => frame[y, x]))
  }

  /** cells is an H x W grid of grey values. */
  predicate IsCells(g: Geometry, cells: seq<seq<Byte>>)
  {
    |cells| == g.h && forall y :: 0 <= y < |cells| ==> |cells[y]| == g.w
  }

  /** The bilevel picture a grey frame shows. */
  function Picture(g: Geometry, cells: seq<seq<Byte>>): (r: Image)
    requires IsCells(g, cells)
    ensures IsImage(g, r)
    ensures forall y, x :: 0 <= y < g.h && 0 <= x < g.w ==> r[y][x] == Dark(cells[y][x])
  {
    seq(g.h, y requires 0 <= y < g.h => seq(g.w, x requires 0 <= x < g.w => Dark(cells[y][x])))
  }

  /**
   * One call of read_frame with a nonzero mask: every pixel is dimmed, then
   * the pixels cs take the shades of px in order, the last write winning.
   */
  ghost predicate Repainted(g: Geometry, before: seq<seq<Byte>>, after: seq<seq<Byte>>, cs: seq<(nat, nat)>, px: seq<bool>)
    requires IsCells(g, before) && |px| == |cs|
  {
    IsCells(g, after)
    && forall y, x :: 0 <= y < g.h && 0 <= x < g.w ==>
         after[y][x] == LastWrite(Dim(before[y][x]), cs, Shades(px), x, y)
  }

  /** Shading commutes with the last write: the shown colour is the last colour written, or the old one. */
  lemma {:induction false} DarkLastWrite(b: Byte, cs: seq<(nat, nat)>, px: seq<bool>, x: nat, y: nat)
    requires |px| == |cs|
    ensures Dark(LastWrite(Dim(b), cs, Shades(px), x, y)) == LastWrite(Dark(b), cs, px, x, y)
    decreases |cs|
  {
    if cs != [] && cs[|cs| - 1] != (x, y) {
      var n := |cs| - 1;
      assert Shades(px)[..n] == Shades(px[..n]);
      DarkLastWrite(b, cs[..n], px[..n], x, y);
    }
  }

  /** What read_frame leaves on screen is Apply's frame: the repainted picture is the decoded one. */
  lemma {:induction false} RepaintedShows(g: Geometry, before: seq<seq<Byte>>, after: seq<seq<Byte>>, mask: nat, px: seq<bool>)
    requires g.w >= 1 && g.h >= 1 && IsCells(g, before) && |px| == |Scan(g, mask)|
    requires Repainted(g, before, after, Scan(g, mask), px)
    ensures Picture(g, after) == Apply(g, Picture(g, before), mask, px)
  {
    var cs := Scan(g, mask);
    var p, a := Picture(g, after), Apply(g, Picture(g, before), mask, px);
    forall y | 0 <= y < g.h
      ensures p[y] == a[y]
    {
      forall x | 0 <= x < g.w
        ensures p[y][x] == a[y][x]
      {
        DarkLastWrite(before[y][x], cs, px, x, y);
      }
    }
  }

  // ---------------------------------------------------------------------------
  // read_frame

  /** `for x, for y`: the SHOW_UNCHANGED_REGIONS pass dims every pixel of the frame. */
  method DimFrame(frame: array2<Byte>)
    modifies frame
    ensures forall y, x :: 0 <= y < frame.Length0 && 0 <= x < frame.Length1 ==> frame[y, x] == Dim(old(frame[y, x]))
  {
    var x := 0;
    while x < frame.Length1
      invariant x <= frame.Length1
      invariant forall y, i :: 0 <= y < frame.Length0 && 0 <= i < frame.Length1 ==>
        frame[y, i] == if i < x then Dim(old(frame[y, i])) else old(frame[y, i])
    {
      DimColumn(frame, x);
      x := x + 1;
    }
  }

  /** One column of the dimming pass, top to bottom. */
  method DimColumn(frame: array2<Byte>, x: nat)
    requires x < frame.Length1
    modifies frame
    ensures forall y, i :: 0 <= y < frame.Length0 && 0 <= i < frame.Length1 ==>
      frame[y, i] == if i == x then Dim(old(frame[y, i])) else old(frame[y, i])
  {
    var y := 0;
    while y < frame.Length0
      invariant y <= frame.Length0
      invariant forall j, i :: 0 <= j < frame.Length0 && 0 <= i < frame.Length1 ==>
        frame[j, i] == if i == x && j < y then Dim(old(frame[j, i])) else old(frame[j, i])
    {
      if frame[y, x] == 0x00 {
        frame[y, x] := 0x28;
      } else if frame[y, x] == 0xFF {
        frame[y, x] := 0xC8;
      }
      y := y + 1;
    }
  }

  /** The frame after the pixels visited so far have been written over the dimmed frame. */
  ghost predicate Written(frame: array2<Byte>, dimmed: seq<seq<Byte>>, visited: seq<(nat, nat)>, px: seq<bool>)
    reads frame
  {
    |dimmed| == frame.Length0 && (forall y :: 0 <= y < |dimmed| ==> |dimmed[y]| == frame.Length1)
    && |visited| <= |px|
    && forall y, x :: 0 <= y < frame.Length0 && 0 <= x < frame.Length1 ==>
         frame[y, x] == LastWrite(dimmed[y][x], visited, Shades(px[..|visited|]), x, y)
  }

  /** Writing the shade of px[i] at the next pixel (x, y) extends the writes so far by one. */
  lemma {:induction false} WrittenStep(frame: array2<Byte>, dimmed: seq<seq<Byte>>, visited: seq<(nat, nat)>, px: seq<bool>, x: nat, y: nat)
    requires |dimmed| == frame.Length0 && (forall j :: 0 <= j < |dimmed| ==> |dimmed[j]| == frame.Length1)
    requires |visited| < |px|
    requires forall j, i :: 0 <= j < frame.Length0 && 0 <= i < frame.Length1 ==>
      frame[j, i] == if (i, j) == (x, y) then Shade(px[|visited|])
                     else LastWrite(dimmed[j][i], visited, Shades(px[..|visited|]), i, j)
    ensures Written(frame, dimmed, visited + [(x, y)], px)
  {
    var cs := visited + [(x, y)];
    assert |cs| == |visited| + 1;
    forall j, i | 0 <= j < frame.Length0 && 0 <= i < frame.Length1
      ensures frame[j, i] == LastWrite(dimmed[j][i], cs, Shades(px[..|cs|]), i, j)
    {
      WriteNext(dimmed[j][i], visited, px, x, y, i, j);
    }
  }

  /** One more write, of the shade of px[|visited|] at (x, y), as seen from pixel (i, j). */
  lemma {:induction false} WriteNext(base: Byte, visited: seq<(nat, nat)>, px: seq<bool>, x: nat, y: nat, i: nat, j: nat)
    requires |visited| < |px|
    ensures LastWrite(base, visited + [(x, y)], Shades(px[..|visited| + 1]), i, j)
      == if (i, j) == (x, y) then Shade(px[|visited|]) else LastWrite(base, visited, Shades(px[..|visited|]), i, j)
  {
    var n := |visited|;
    ShadesSnoc(px, n);
    LastWriteSnoc(base, visited, Shades(px[..n]), x, y, Shade(px[n]), i, j);
  }

  /**
   * The read_frame lambda: nothing for a zero mask; otherwise the start
   * colour and the first run length, the dimming pass, then the scan of the
   * changed chunks, column by column, skipping unchanged bands at their top
   * row; each visited pixel takes the shade of the current colour, which
   * flips, with a new run length read, when the run is used up. With k bits
   * allowed past the end of the file, the reader ends after the last run
   * code and the frame is the old one dimmed and repainted along the scan.
   */
  method ReadFrame(br: BitReader, frame: array2<Byte>, width: nat, height: nat, chunkW: nat, chunkH: nat,
                   cmask: nat, ghost k: nat)
    requires br.Valid() && 1 <= width && 1 <= height && frame.Length0 == height && frame.Length1 == width
    requires chunkW == Geometry(width, height).Cw() && chunkH == Geometry(width, height).Ch()
    requires cmask != 0 ==> DecodeFrame(Padded(br.Stream(), k), br.pos, |Scan(Geometry(width, height), cmask)|).Some?
    modifies br, br.from, frame
    ensures br.Valid()
    ensures cmask == 0 ==> br.pos == old(br.pos) && Cells(frame) == old(Cells(frame))
    ensures cmask != 0 ==>
      var g := Geometry(width, height);
      var (px, next) := DecodeFrame(Padded(br.Stream(), k), old(br.pos), |Scan(g, cmask)|).value;
      br.pos == next && Repainted(g, old(Cells(frame)), Cells(frame), Scan(g, cmask), px)
  {
    if cmask == 0 {
      return;
    }
    ghost var g := Geometry(width, height);
    ghost var s := Padded(br.Stream(), k);
    ghost var cs := Scan(g, cmask);
    ghost var before := Cells(frame);
    var current, repeat, px, fin := StartFrame(br, k, |cs|);
    DimFrame(frame);
    ghost var dimmed := Cells(frame);
    assert forall y, x :: 0 <= y < height && 0 <= x < width ==> dimmed[y][x] == Dim(before[y][x]);
    PaintScan(br, frame, width, height, chunkW, chunkH, cmask, current, repeat, k, px, fin, dimmed);
    WrittenRepainted(g, frame, before, dimmed, cs, px);
  }

  /**
   * The start of read_frame's pixel data, `bool current = br();` and
   * `uint16_t repeat = read_count(br);`: the first colour and run length,
   * which begin the decoding of the frame's pixels.
   */
  method StartFrame(br: BitReader, ghost k: nat, ghost n: nat)
    returns (current: bool, repeat: nat, ghost px: seq<bool>, ghost fin: RunState)
    requires br.Valid() && DecodeFrame(Padded(br.Stream(), k), br.pos, n).Some?
    modifies br, br.from
    ensures br.Valid()
    ensures DecodeFrame(Padded(br.Stream(), k), old(br.pos), n) == Some((px, fin.pos))
    ensures Decoding(Padded(br.Stream(), k), current, repeat, br.pos, px, fin, 0)
  {
    ghost var s := Padded(br.Stream(), k);
    ghost var p0 := br.pos;
    FrameReadable(s, p0, n);
    current := br.ReadBit();
    repeat := ReadCount(br, k);
    px, fin := FrameStart(s, p0, n, RunState(current, repeat, br.pos));
  }

  /** The pixel loop of read_frame: every column in turn; the whole scan ends up written over the dimmed frame. */
  method PaintScan(br: BitReader, frame: array2<Byte>, width: nat, height: nat, chunkW: nat, chunkH: nat,
                   cmask: nat, current: bool, repeat: nat, ghost k: nat,
                   ghost px: seq<bool>, ghost fin: RunState, ghost dimmed: seq<seq<Byte>>)
    requires br.Valid() && 1 <= width && 1 <= height && frame.Length0 == height && frame.Length1 == width
    requires chunkW == Geometry(width, height).Cw() && chunkH == Geometry(width, height).Ch()
    requires |px| == |Scan(Geometry(width, height), cmask)|
    requires Decoding(Padded(br.Stream(), k), current, repeat, br.pos, px, fin, 0)
    requires dimmed == Cells(frame)
    modifies br, br.from, frame
    ensures br.Valid() && br.pos == fin.pos
    ensures Written(frame, dimmed, Scan(Geometry(width, height), cmask), px)
  {
    ghost var g := Geometry(width, height);
    ghost var cs := Scan(g, cmask);
    ghost var visited: seq<(nat, nat)> := [];
    var current', repeat' := current, repeat;
    var x: nat := 0;
    while x < width
      invariant x <= width && br.Valid()
      invariant visited + ScanFrom(g, cmask, x, 0) == cs
      invariant Decoding(Padded(br.Stream(), k), current', repeat', br.pos, px, fin, |visited|)
      invariant Written(frame, dimmed, visited, px)
    {
      current', repeat', visited := ReadColumn(br, frame, width, height, chunkW, chunkH, cmask, x, current', repeat', k, px, fin, dimmed, visited);
      x := x + 1;
    }
    assert visited == cs;
    DecodedAll(Padded(br.Stream(), k), current', repeat', br.pos, px, fin);
  }

  /** Once the whole scan is written over the dimmed frame, the frame is the repainted one. */
  lemma {:induction false} WrittenRepainted(g: Geometry, frame: array2<Byte>, before: seq<seq<Byte>>, dimmed: seq<seq<Byte>>,
                         cs: seq<(nat, nat)>, px: seq<bool>)
    requires frame.Length0 == g.h && frame.Length1 == g.w && IsCells(g, before) && |cs| == |px|
    requires Written(frame, dimmed, cs, px)
    requires forall y, x :: 0 <= y < g.h && 0 <= x < g.w ==> dimmed[y][x] == Dim(before[y][x])
    ensures Repainted(g, before, Cells(frame), cs, px)
  {
    assert px[..|cs|] == px;
  }

  /**
   * One column of read_frame's scan, top to bottom: the pixels visited are
   * the column's part of the scan.
   */
  method ReadColumn(br: BitReader, frame: array2<Byte>, width: nat, height: nat, chunkW: nat, chunkH: nat,
                    cmask: nat, x: nat, current: bool, repeat: nat, ghost k: nat,
                    ghost px: seq<bool>, ghost fin: RunState, ghost dimmed: seq<seq<Byte>>, ghost visited: seq<(nat, nat)>)
    returns (current': bool, repeat': nat, ghost visited': seq<(nat, nat)>)
    requires br.Valid() && 1 <= width && 1 <= height && frame.Length0 == height && frame.Length1 == width && x < width
    requires chunkW == Geometry(width, height).Cw() && chunkH == Geometry(width, height).Ch()
    requires visited + ScanFrom(Geometry(width, height), cmask, x, 0) == Scan(Geometry(width, height), cmask)
    requires |px| == |Scan(Geometry(width, height), cmask)|
    requires Decoding(Padded(br.Stream(), k), current, repeat, br.pos, px, fin, |visited|)
    requires Written(frame, dimmed, visited, px)
    modifies br, br.from, frame
    ensures br.Valid()
    ensures visited' + ScanFrom(Geometry(width, height), cmask, x + 1, 0) == Scan(Geometry(width, height), cmask)
    ensures Decoding(Padded(br.Stream(), k), current', repeat', br.pos, px, fin, |visited'|)
    ensures Written(frame, dimmed, visited', px)
  {
    ghost var g := Geometry(width, height);
    current', repeat', visited' := current, repeat, visited;
    var y: nat := 0;
    while y < height
      invariant y < height + chunkH && br.Valid()
      invariant InBand(g, cmask, x, y)
      invariant visited' + ScanFrom(g, cmask, x, y) == Scan(g, cmask)
      invariant Decoding(Padded(br.Stream(), k), current', repeat', br.pos, px, fin, |visited'|)
      invariant Written(frame, dimmed, visited', px)
      decreases height - y
    {
      y, current', repeat', visited' := ColumnStep(br, frame, width, height, chunkW, chunkH, cmask, x, y,
                                                   current', repeat', k, px, fin, dimmed, visited');
    }
    ColumnEnd(g, cmask, x, y);
  }

  /**
   * One pass of read_frame's inner loop: at the top row of a band whose
   * chunk is unchanged, `y += CHUNK_HEIGHT - 1; continue`; otherwise the
   * pixel is visited.
   */
  method ColumnStep(br: BitReader, frame: array2<Byte>, width: nat, height: nat, chunkW: nat, chunkH: nat,
                    cmask: nat, x: nat, y: nat, current: bool, repeat: nat, ghost k: nat,
                    ghost px: seq<bool>, ghost fin: RunState, ghost dimmed: seq<seq<Byte>>, ghost visited: seq<(nat, nat)>)
    returns (y': nat, current': bool, repeat': nat, ghost visited': seq<(nat, nat)>)
    requires br.Valid() && 1 <= width && 1 <= height && frame.Length0 == height && frame.Length1 == width
    requires x < width && y < height
    requires chunkW == Geometry(width, height).Cw() && chunkH == Geometry(width, height).Ch()
    requires InBand(Geometry(width, height), cmask, x, y)
    requires visited + ScanFrom(Geometry(width, height), cmask, x, y) == Scan(Geometry(width, height), cmask)
    requires |px| == |Scan(Geometry(width, height), cmask)|
    requires Decoding(Padded(br.Stream(), k), current, repeat, br.pos, px, fin, |visited|)
    requires Written(frame, dimmed, visited, px)
    modifies br, br.from, frame
    ensures y < y' < height + chunkH && br.Valid()
    ensures InBand(Geometry(width, height), cmask, x, y')
    ensures visited' + ScanFrom(Geometry(width, height), cmask, x, y') == Scan(Geometry(width, height), cmask)
    ensures Decoding(Padded(br.Stream(), k), current', repeat', br.pos, px, fin, |visited'|)
    ensures Written(frame, dimmed, visited', px)
  {
    ghost var g := Geometry(width, height);
    if y % chunkH == 0 {
      var cx := Min(x / chunkW, ChunkCountX - 1);
      var cy := Min(y / chunkH, ChunkCountY - 1);
      if !Bit(cmask, cx * ChunkCountY + cy) {
        assert cx * ChunkCountY + cy == ChunkOf(g, x, y);
        SkipStep(g, cmask, visited, x, y);
        return y + chunkH, current, repeat, visited;
      }
    } else {
      InBandVisible(g, cmask, x, y);
    }
    ScanStep(g, cmask, visited, x, y);
    current', repeat' := VisitPixel(br, frame, x, y, current, repeat, k, px, fin, dimmed, visited);
    y', visited' := y + 1, visited + [(x, y)];
  }

  /**
   * One visited pixel: the next colour from the run-length reader,
   * `if (!repeat) { current = !current; repeat = read_count(br); } repeat--;`,
   * written as `current ? 0x00 : 0xff`.
   */
  method VisitPixel(br: BitReader, frame: array2<Byte>, x: nat, y: nat, current: bool, repeat: nat, ghost k: nat,
                    ghost px: seq<bool>, ghost fin: RunState, ghost dimmed: seq<seq<Byte>>, ghost visited: seq<(nat, nat)>)
    returns (current': bool, repeat': nat)
    requires br.Valid() && y < frame.Length0 && x < frame.Length1 && |visited| < |px|
    requires Decoding(Padded(br.Stream(), k), current, repeat, br.pos, px, fin, |visited|)
    requires Written(frame, dimmed, visited, px)
    modifies br, br.from, frame
    ensures br.Valid() && current' == px[|visited|]
    ensures Decoding(Padded(br.Stream(), k), current', repeat', br.pos, px, fin, |visited| + 1)
    ensures Written(frame, dimmed, visited + [(x, y)], px)
  {
    ghost var s := Padded(br.Stream(), k);
    ghost var st := RunState(current, repeat, br.pos);
    DecodingStep(s, st, st, px, fin, |visited|);
    current', repeat' := current, repeat;
    if repeat' == 0 {
      current' := !current';
      repeat' := ReadCount(br, k);
    }
    repeat' := repeat' - 1;
    DecodingStep(s, st, RunState(current', repeat', br.pos), px, fin, |visited|);
    frame[y, x] := Shade(current');
    WrittenStep(frame, dimmed, visited, px, x, y);
  }

  // ---------------------------------------------------------------------------
  // main

  /**
   * The picture Video starts from. The frame main allocates,
   * `cv::Mat(height, width, CV_8UC1)`, is not initialised; the first frame
   * changes every chunk, so what it held does not matter (ApplyFull).
   */
  function Unset(g: Geometry): (r: Image)
    ensures IsImage(g, r)
  {
    seq(g.h, _ => seq(g.w, _ => true))
  }

  /**
   * The frames main shows for a file, with its loop guard corrected: the
   * first frame read with every chunk changed, then, while at least a
   * whole 64-bit header is left, a header and its frame; each frame is
   * shown once it is read. The pictures shown are the video's frames.
   */
  method PlayVideo(data: seq<Byte>) returns (shown: seq<seq<seq<Byte>>>)
    requires |data| >= 2 && data[0] >= 1 && data[1] >= 1
    requires Video(Geometry(data[0], data[1]), BitsOfBytes(data), Unset(Geometry(data[0], data[1]))).Some?
    ensures var g := Geometry(data[0], data[1]);
      var video := Video(g, BitsOfBytes(data), Unset(g)).value;
      |shown| == |video| && forall i :: 0 <= i < |shown| ==> IsCells(g, shown[i]) && Picture(g, shown[i]) == video[i]
  {
    var inFile := new InFile(data);
    var w := inFile.Get();
    var h := inFile.Get();
    var width: nat, height: nat := w, h;
    var br := new BitReader(inFile);
    var chunkW := (width - 1) / ChunkCountX + 1;
    var chunkH := (height - 1) / ChunkCountY + 1;
    ghost var g := Geometry(width, height);
    ghost var s := br.Stream();
    ghost var video := Video(g, s, Unset(g)).value;
    var frame := new Byte[height, width];
    shown := ShowFirst(br, frame, width, height, chunkW, chunkH);
    shown := ShowRest(br, frame, width, height, chunkW, chunkH, shown, video);
  }

  /**
   * The main loop `while (in_file)`, with the guard of a whole header: read
   * and show frames while at least 64 bits are left.
   */
  method ShowRest(br: BitReader, frame: array2<Byte>, width: nat, height: nat, chunkW: nat, chunkH: nat,
                  shown0: seq<seq<seq<Byte>>>, ghost video: seq<Image>)
    returns (shown: seq<seq<seq<Byte>>>)
    requires 1 <= width && 1 <= height && frame.Length0 == height && frame.Length1 == width
    requires chunkW == Geometry(width, height).Cw() && chunkH == Geometry(width, height).Ch()
    requires br.Valid() && br.pos <= |br.Stream()|
    requires 1 <= |shown0| <= |video|
    requires forall i :: 0 <= i < |shown0| ==> IsCells(Geometry(width, height), shown0[i]) && Picture(Geometry(width, height), shown0[i]) == video[i]
    requires Play(Geometry(width, height), br.Stream(), br.pos, Picture(Geometry(width, height), Cells(frame))) == Some(video[|shown0|..])
    modifies br, br.from, frame
    ensures |shown| == |video|
    ensures forall i :: 0 <= i < |shown| ==> IsCells(Geometry(width, height), shown[i]) && Picture(Geometry(width, height), shown[i]) == video[i]
  {
    ghost var g := Geometry(width, height);
    ghost var s := br.Stream();
    shown := shown0;
    while br.Remaining() >= ChunkCount
      invariant br.Valid() && br.Stream() == s && br.pos <= |s| && frame.Length0 == height && frame.Length1 == width
      invariant 1 <= |shown| <= |video| && forall i :: 0 <= i < |shown| ==> IsCells(g, shown[i]) && Picture(g, shown[i]) == video[i]
      invariant Play(g, s, br.pos, Picture(g, Cells(frame))) == Some(video[|shown|..])
      decreases |s| - br.pos
    {
      shown := ShowNext(br, frame, width, height, chunkW, chunkH, shown, video);
    }
    assert video[|shown|..] == [];
  }

  /**
   * `read_frame(~0ull)` on the frame as allocated, then the frame shown:
   * the first picture of the video.
   */
  method ShowFirst(br: BitReader, frame: array2<Byte>, width: nat, height: nat, chunkW: nat, chunkH: nat)
    returns (shown: seq<seq<seq<Byte>>>)
    requires br.Valid() && br.pos == 16 && 16 <= |br.Stream()|
    requires 1 <= width && 1 <= height && frame.Length0 == height && frame.Length1 == width
    requires chunkW == Geometry(width, height).Cw() && chunkH == Geometry(width, height).Ch()
    requires Video(Geometry(width, height), br.Stream(), Unset(Geometry(width, height))).Some?
    modifies br, br.from, frame
    ensures br.Valid() && br.pos <= |br.Stream()| && shown == [Cells(frame)]
    ensures var g := Geometry(width, height);
      var video := Video(g, br.Stream(), Unset(g)).value;
      IsCells(g, shown[0]) && Picture(g, shown[0]) == video[0]
      && Play(g, br.Stream(), br.pos, Picture(g, Cells(frame))) == Some(video[1..])
  {
    ghost var g := Geometry(width, height);
    ghost var s := br.Stream();
    ghost var blank := Cells(frame);
    assert Padded(s, 0) == s;
    ReadFrame(br, frame, width, height, chunkW, chunkH, FullMask, 0);
    FirstShown(g, s, blank, Cells(frame), br.pos);
    shown := [Cells(frame)];
  }

  /** The first frame: Video's first picture, and Play gives the rest from where its pixel data ends. */
  lemma {:induction false} FirstShown(g: Geometry, s: seq<bool>, blank: seq<seq<Byte>>, after: seq<seq<Byte>>, next: nat)
    requires g.w >= 1 && g.h >= 1 && 16 <= |s| && IsCells(g, blank)
    requires Video(g, s, Unset(g)).Some?
    requires var (px, n) := DecodeFrame(s, 16, |Scan(g, FullMask)|).value;
      next == n && Repainted(g, blank, after, Scan(g, FullMask), px)
    ensures IsCells(g, after) && next <= |s|
    ensures var video := Video(g, s, Unset(g)).value;
      Picture(g, after) == video[0] && Play(g, s, next, Picture(g, after)) == Some(video[1..])
  {
    var (px, n) := DecodeFrame(s, 16, |Scan(g, FullMask)|).value;
    RepaintedShows(g, blank, after, FullMask, px);
    ApplyFull(g, Picture(g, blank), Unset(g), px);
  }

  /** One pass of main's loop: `read_frame(read_num(CHUNK_COUNT_X * CHUNK_COUNT_Y, br))`, then the frame shown. */
  method ShowNext(br: BitReader, frame: array2<Byte>, width: nat, height: nat, chunkW: nat, chunkH: nat,
                  shown: seq<seq<seq<Byte>>>, ghost video: seq<Image>)
    returns (shown': seq<seq<seq<Byte>>>)
    requires br.Valid() && 1 <= width && 1 <= height && frame.Length0 == height && frame.Length1 == width
    requires chunkW == Geometry(width, height).Cw() && chunkH == Geometry(width, height).Ch()
    requires br.pos + ChunkCount <= |br.Stream()| && |shown| <= |video|
    requires Play(Geometry(width, height), br.Stream(), br.pos, Picture(Geometry(width, height), Cells(frame)))
      == Some(video[|shown|..])
    modifies br, br.from, frame
    ensures br.Valid() && old(br.pos) < br.pos <= |br.Stream()|
    ensures shown' == shown + [Cells(frame)] && |shown'| <= |video| && IsCells(Geometry(width, height), Cells(frame))
    ensures Picture(Geometry(width, height), Cells(frame)) == video[|shown|]
    ensures Play(Geometry(width, height), br.Stream(), br.pos, Picture(Geometry(width, height), Cells(frame)))
      == Some(video[|shown'|..])
  {
    ghost var rest := video[|shown|..];
    ghost var p0 := br.pos;
    var mask := ReadHeader(br);
    ShowFrame(br, frame, width, height, chunkW, chunkH, mask, p0, rest);
    DropFirst(video, |shown|);
    shown' := shown + [Cells(frame)];
  }

  /**
   * `read_frame(mask)` with the header just read at p0: the frame then
   * shows Play's next picture, and Play gives the rest from the cursor.
   */
  method ShowFrame(br: BitReader, frame: array2<Byte>, width: nat, height: nat, chunkW: nat, chunkH: nat,
                   mask: nat, ghost p0: nat, ghost rest: seq<Image>)
    requires br.Valid() && 1 <= width && 1 <= height && frame.Length0 == height && frame.Length1 == width
    requires chunkW == Geometry(width, height).Cw() && chunkH == Geometry(width, height).Ch()
    requires p0 + ChunkCount <= |br.Stream()| && br.pos == p0 + ChunkCount && Header(br.Stream(), p0) == Some(mask)
    requires Play(Geometry(width, height), br.Stream(), p0, Picture(Geometry(width, height), Cells(frame))) == Some(rest)
    modifies br, br.from, frame
    ensures br.Valid() && p0 < br.pos <= |br.Stream()| && rest != []
    ensures IsCells(Geometry(width, height), Cells(frame)) && Picture(Geometry(width, height), Cells(frame)) == rest[0]
    ensures Play(Geometry(width, height), br.Stream(), br.pos, Picture(Geometry(width, height), Cells(frame))) == Some(rest[1..])
  {
    ghost var g := Geometry(width, height);
    ghost var s := br.Stream();
    ghost var before := Cells(frame);
    HeaderReadable(g, s, p0, Picture(g, before), mask, rest);
    ReadFrame(br, frame, width, height, chunkW, chunkH, mask, 0);
    NextShown(g, s, p0, before, Cells(frame), mask, br.pos, rest);
  }

  lemma {:induction false} DropFirst<T>(xs: seq<T>, k: nat)
    requires k < |xs|
    ensures xs[k..][1..] == xs[k + 1..] && xs[k..][0] == xs[k]
  {
  }

  /** `read_num(CHUNK_COUNT_X * CHUNK_COUNT_Y, br)` with a whole header left: the change mask at the cursor. */
  method ReadHeader(br: BitReader) returns (mask: nat)
    requires br.Valid() && br.pos + ChunkCount <= |br.Stream()|
    modifies br, br.from
    ensures br.Valid() && br.pos == old(br.pos) + ChunkCount
    ensures Header(br.Stream(), old(br.pos)) == Some(mask)
  {
    assert Padded(br.Stream(), 0) == br.Stream();
    mask := ReadNum(ChunkCount, br, 0);
  }

  /** Where Play goes on, the frame announced by the header at the cursor can be read. */
  lemma {:induction false} HeaderReadable(g: Geometry, s: seq<bool>, p0: nat, img: Image, mask: nat, rest: seq<Image>)
    requires g.w >= 1 && g.h >= 1 && IsImage(g, img) && p0 <= |s|
    requires Header(s, p0) == Some(mask) && Play(g, s, p0, img) == Some(rest)
    ensures Padded(s, 0) == s
    ensures mask != 0 ==> DecodeFrame(Padded(s, 0), p0 + ChunkCount, |Scan(g, mask)|).Some?
  {
    assert Padded(s, 0) == s;
  }

  /** A later frame: Play's first picture, and Play gives the rest from where its pixel data ends. */
  lemma {:induction false} NextShown(g: Geometry, s: seq<bool>, p0: nat, before: seq<seq<Byte>>, after: seq<seq<Byte>>, mask: nat,
                  next: nat, rest: seq<Image>)
    requires g.w >= 1 && g.h >= 1 && p0 + ChunkCount <= |s| && IsCells(g, before)
    requires Header(s, p0) == Some(mask) && Play(g, s, p0, Picture(g, before)) == Some(rest)
    requires mask == 0 ==> next == p0 + ChunkCount && after == before
    requires mask != 0 ==> var (px, n) := DecodeFrame(s, p0 + ChunkCount, |Scan(g, mask)|).value;
      next == n && Repainted(g, before, after, Scan(g, mask), px)
    ensures IsCells(g, after) && p0 < next <= |s| && rest != []
    ensures Picture(g, after) == rest[0] && Play(g, s, next, Picture(g, after)) == Some(rest[1..])
  {
    var img := Picture(g, before);
    if mask == 0 {
      ApplyNothing(g, img);
    } else {
      var (px, n) := DecodeFrame(s, p0 + ChunkCount, |Scan(g, mask)|).value;
      RepaintedShows(g, before, after, mask, px);
    }
  }

  /**
   * main's loop as written, `while (in_file)`, at the end of a file whose
   * last 1 to 8 bits are the encoder's padding: the stream is still good
   * (the byte holding the next bit was read without reaching EOF), so the
   * loop goes on; read_num reads a header whose bits past the end are all
   * 1, so it is nonzero; and from the first run length of that frame on
   * every bit reads 1, so read_count's `while (from() != 0)` never stops,
   * and no run code can be read there.
   */
  lemma {:induction false} HostLoopAfterLastFrame(data: seq<Byte>, pos: nat, pad: nat)
    requires 1 <= pad <= 8 && pos + pad == |BitsOfBytes(data)|
    ensures pos / 8 < |data|
    ensures ValueAt(Padded(BitsOfBytes(data), ChunkCount), pos, ChunkCount) != 0
    ensures forall i :: pos + ChunkCount <= i ==> HostBit(BitsOfBytes(data), i)
    ensures forall k :: ReadRun(Padded(BitsOfBytes(data), k), pos + ChunkCount + 1) == None
  {
    var s := BitsOfBytes(data);
    var t := Padded(s, ChunkCount);
    assert t[pos + ChunkCount - 1];
    forall k
      ensures ReadRun(Padded(s, k), pos + ChunkCount + 1) == None
    {
      OnesNoRun(Padded(s, k), pos + ChunkCount + 1, 1);
    }
  }
}
