/**
 * The layout of an encoded video as a bit sequence: after the two size
 * bytes, the first frame's pixel data (every pixel), then for every later
 * frame its 64-bit change mask and the pixel data of its changed chunks;
 * the last byte is padded with zero bits. Pixel data is the start colour
 * and the run codes of the visited pixels (vidproc/vidproc.cpp:160-167,
 * 230-261; src/decoder.cpp:49-95; vidproc/vidunproc.cpp:81-131).
 */
module VideoFormat {
  import opened Bits
  import opened RunLength
  import opened Chunks

  /** Every frame is a W x H image. */
  predicate AllImages(g: Geometry, frames: seq<Image>)
  {
    forall i :: 0 <= i < |frames| ==> IsImage(g, frames[i])
  }

  /** The pixels of img that a frame with change mask `mask` carries. */
  function Visited(g: Geometry, img: Image, mask: nat): (r: seq<bool>)
    requires g.w >= 1 && g.h >= 1 && IsImage(g, img)
    ensures |r| == |Scan(g, mask)|
  {
    ScanInFrame(g, mask);
    Pixels(g, img, Scan(g, mask))
  }

  /** runs[k] are the runs of frame k's visited pixels, for the first n frames. */
  predicate FramesCoded(g: Geometry, frames: seq<Image>, masks: seq<nat>, runs: seq<seq<nat>>, n: nat)
  {
    g.w >= 1 && g.h >= 1 && n <= |frames| && n <= |masks| && n <= |runs| && AllImages(g, frames)
    && forall k :: 0 <= k < n ==> RunsOf(Visited(g, frames[k], masks[k]), runs[k])
  }

  /** The pixel data of frame k: its visited pixels, run-length coded. */
  function FrameData(g: Geometry, frames: seq<Image>, masks: seq<nat>, runs: seq<seq<nat>>, k: nat): seq<bool>
    requires FramesCoded(g, frames, masks, runs, k + 1)
  {
    RleBits(Visited(g, frames[k], masks[k]), runs[k])
  }

  /**
   * The bits of the first n >= 1 frames: frame 0's pixel data (its mask is
   * all ones and is not sent), then the mask and pixel data of each later
   * frame.
   */
  function StreamBits(g: Geometry, frames: seq<Image>, masks: seq<nat>, runs: seq<seq<nat>>, n: nat): seq<bool>
    requires 1 <= n && FramesCoded(g, frames, masks, runs, n)
  {
    if n == 1 then FrameData(g, frames, masks, runs, 0)
    else StreamBits(g, frames, masks, runs, n - 1) + MaskBits(masks[n - 1]) + FrameData(g, frames, masks, runs, n - 1)
  }
}
