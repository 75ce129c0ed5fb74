/**
 * What a decoder shows, as a function of the bits of a stream. Both
 * decoders keep one frame buffer and overwrite, frame after frame, the
 * pixels their chunk-skipping scan visits; every other pixel keeps what the
 * previous frame left (src/decoder.cpp:47-110; vidproc/vidunproc.cpp:81-131).
 * The stream is the bit view of the whole file; the pixel data of the first
 * frame starts at bit 16, right after the width and height bytes.
 */
module Playback {
  import opened Bits
  import opened Opt
  import opened RunLength
  import opened Chunks

  /** The value left at pixel (x, y) once vs[i] has been written at cs[i], for each i in order. */
  function LastWrite<T>(base: T, cs: seq<(nat, nat)>, vs: seq<T>, x: nat, y: nat): T
    requires |vs| == |cs|
    decreases |cs|
  {
    if cs == [] then base
    else if cs[|cs| - 1] == (x, y) then vs[|cs| - 1]
    else LastWrite(base, cs[..|cs| - 1], vs[..|vs| - 1], x, y)
  }

  /**
   * The last write wins: a pixel written at all shows the value of its last
   * write, i, and a pixel never written keeps its value.
   */
  lemma {:induction false} LastWriteIndex<T>(base: T, cs: seq<(nat, nat)>, vs: seq<T>, x: nat, y: nat)
    returns (i: int)
    requires |vs| == |cs|
    ensures (x, y) in cs ==> 0 <= i < |cs| && cs[i] == (x, y) && LastWrite(base, cs, vs, x, y) == vs[i]
    ensures (x, y) in cs ==> forall j :: i < j < |cs| ==> cs[j] != (x, y)
    ensures (x, y) !in cs ==> LastWrite(base, cs, vs, x, y) == base
    decreases |cs|
  {
    if cs == [] {
      i := -1;
    } else {
      var n := |cs| - 1;
      if cs[n] == (x, y) {
        i := n;
      } else {
        var front := cs[..n];
        assert cs == front + [cs[n]];
        i := LastWriteIndex(base, front, vs[..n], x, y);
      }
    }
  }

  /** Writing vs[i] at cs[i] and then v at (a, b) is writing vs + [v] at cs + [(a, b)]. */
  lemma {:induction false} LastWriteSnoc<T>(base: T, cs: seq<(nat, nat)>, vs: seq<T>, a: nat, b: nat, v: T, x: nat, y: nat)
    requires |vs| == |cs|
    ensures LastWrite(base, cs + [(a, b)], vs + [v], x, y)
      == if (a, b) == (x, y) then v else LastWrite(base, cs, vs, x, y)
  {
    assert (cs + [(a, b)])[..|cs|] == cs;
    assert (vs + [v])[..|vs|] == vs;
  }

  /**
   * The frame after one frame's pixel data: the pixels of changed chunks
   * take the decoded colours px, in scan order; the rest keep img's.
   */
  function Apply(g: Geometry, img: Image, mask: nat, px: seq<bool>): (r: Image)
    requires g.w >= 1 && g.h >= 1 && IsImage(g, img) && |px| == |Scan(g, mask)|
    ensures IsImage(g, r)
  {
    seq(g.h, y requires 0 <= y < g.h =>
      seq(g.w, x requires 0 <= x < g.w => LastWrite(img[y][x], Scan(g, mask), px, x, y)))
  }

  /**
   * Writing another frame's pixels along the scan: where the pixel data is
   * the visited pixels of cur, the result shows cur in changed chunks and
   * img everywhere else.
   */
  lemma {:induction false} ApplyPixels(g: Geometry, img: Image, mask: nat, cur: Image, x: nat, y: nat)
    requires g.w >= 1 && g.h >= 1 && IsImage(g, img) && IsImage(g, cur) && x < g.w && y < g.h
    ensures InFrame(g, Scan(g, mask))
    ensures Apply(g, img, mask, Pixels(g, cur, Scan(g, mask)))[y][x]
      == if Visible(g, mask, x, y) then cur[y][x] else img[y][x]
  {
    ScanInFrame(g, mask);
    var cs := Scan(g, mask);
    var px := Pixels(g, cur, cs);
    ScanMembers(g, mask, x, y);
    var i := LastWriteIndex(img[y][x], cs, px, x, y);
  }

  /** A frame with every chunk changed overwrites every pixel: the frame it is painted over does not matter. */
  lemma {:induction false} ApplyFull(g: Geometry, a: Image, b: Image, px: seq<bool>)
    requires g.w >= 1 && g.h >= 1 && IsImage(g, a) && IsImage(g, b) && |px| == |Scan(g, FullMask)|
    ensures Apply(g, a, FullMask, px) == Apply(g, b, FullMask, px)
  {
    var ra, rb := Apply(g, a, FullMask, px), Apply(g, b, FullMask, px);
    forall y | 0 <= y < g.h
      ensures ra[y] == rb[y]
    {
      forall x | 0 <= x < g.w
        ensures ra[y][x] == rb[y][x]
      {
        FullMaskVisits(g, x, y);
        var i := LastWriteIndex(a[y][x], Scan(g, FullMask), px, x, y);
        var j := LastWriteIndex(b[y][x], Scan(g, FullMask), px, x, y);
        assert i == j;
      }
    }
  }

  /** A zero mask changes nothing. */
  lemma {:induction false} ApplyNothing(g: Geometry, img: Image)
    requires g.w >= 1 && g.h >= 1 && IsImage(g, img)
    ensures Scan(g, 0) == [] && Apply(g, img, 0, []) == img
  {
    EmptyMask(g);
    var r := Apply(g, img, 0, []);
    forall y | 0 <= y < g.h
      ensures r[y] == img[y]
    {
      assert forall x :: 0 <= x < g.w ==> r[y][x] == LastWrite(img[y][x], [], [], x, y);
    }
  }

  /** The change mask at pos, its bit 63 first, when the stream still holds 64 bits there. */
  function Header(s: seq<bool>, pos: nat): (r: Option<nat>)
    ensures r.Some? <==> pos + ChunkCount <= |s|
    ensures r.Some? ==> r.value < Pow2(ChunkCount) && HasAt(s, pos, MaskBits(r.value))
  {
    if pos + ChunkCount <= |s| then
      MsbOfValueAt(s, pos, ChunkCount);
      Some(ValueAt(s, pos, ChunkCount))
    else None
  }

  /** The header read back is the mask written. */
  lemma {:induction false} HeaderOfMask(s: seq<bool>, pos: nat, mask: nat)
    requires mask < Pow2(ChunkCount) && HasAt(s, pos, MaskBits(mask))
    ensures Header(s, pos) == Some(mask)
  {
    ValueAtOfMsb(s, pos, mask, ChunkCount);
  }

  /**
   * The colours of one frame's visited pixels, whose pixel data starts at
   * pos, and the position after it; a zero mask carries no pixel data.
   */
  function FramePixels(g: Geometry, s: seq<bool>, pos: nat, mask: nat): (r: Option<(seq<bool>, nat)>)
    requires g.w >= 1 && g.h >= 1 && pos <= |s|
    ensures r.Some? ==> |r.value.0| == |Scan(g, mask)| && pos <= r.value.1 <= |s|
    ensures mask == 0 ==> r == Some(([], pos))
  {
    if mask == 0 then
      EmptyMask(g);
      Some(([], pos))
    else DecodeFrame(s, pos, |Scan(g, mask)|)
  }

  /**
   * The frames shown after each later frame, the first of them read at pos
   * while `shown` is on screen: a header, then that frame's pixel data; the
   * video ends where no whole header is left. None when some frame's pixel
   * data cannot be read.
   */
  function Play(g: Geometry, s: seq<bool>, pos: nat, shown: Image): (r: Option<seq<Image>>)
    requires g.w >= 1 && g.h >= 1 && IsImage(g, shown) && pos <= |s|
    ensures r.Some? ==> forall k :: 0 <= k < |r.value| ==> IsImage(g, r.value[k])
    ensures pos + ChunkCount > |s| <==> r == Some([])
    decreases |s| - pos
  {
    match Header(s, pos)
    case None => Some([])
    case Some(mask) =>
      match FramePixels(g, s, pos + ChunkCount, mask)
      case None => None
      case Some((px, next)) =>
        var img := Apply(g, shown, mask, px);
        match Play(g, s, next, img)
        case None => None
        case Some(rest) => Some([img] + rest)
  }

  /**
   * The whole video: the first frame is read with every chunk changed and
   * no header, the later frames as Play says. Where the first frame starts,
   * blank is on screen; the first frame overwrites all of it.
   */
  function Video(g: Geometry, s: seq<bool>, blank: Image): (r: Option<seq<Image>>)
    requires g.w >= 1 && g.h >= 1 && IsImage(g, blank) && 16 <= |s|
    ensures r.Some? ==> |r.value| >= 1 && forall k :: 0 <= k < |r.value| ==> IsImage(g, r.value[k])
  {
    match DecodeFrame(s, 16, |Scan(g, FullMask)|)
    case None => None
    case Some((px, next)) =>
      var img := Apply(g, blank, FullMask, px);
      match Play(g, s, next, img)
      case None => None
      case Some(rest) => Some([img] + rest)
  }
  /**
   * One step of Play: the frames left are none exactly when no whole
   * header is left; otherwise the next frame is the header's chunks
   * repainted from the frame's pixel data, and Play goes on after it.
   */
  lemma {:induction false} PlayNext(g: Geometry, s: seq<bool>, pos: nat, shown: Image, rest: seq<Image>)
    requires g.w >= 1 && g.h >= 1 && IsImage(g, shown) && pos <= |s|
    requires Play(g, s, pos, shown) == Some(rest)
    ensures rest != [] <==> Header(s, pos).Some?
    ensures Header(s, pos).Some? ==>
      var mask := Header(s, pos).value;
      FramePixels(g, s, pos + ChunkCount, mask).Some?
      && var (px, next) := FramePixels(g, s, pos + ChunkCount, mask).value;
      rest[0] == Apply(g, shown, mask, px) && Play(g, s, next, rest[0]) == Some(rest[1..])
  {
    match Header(s, pos)
    case None =>
    case Some(mask) =>
      var (px, next) := FramePixels(g, s, pos + ChunkCount, mask).value;
      var img := Apply(g, shown, mask, px);
      var tail := Play(g, s, next, img).value;
      assert rest == [img] + tail;
      assert rest[1..] == tail;
  }
}
