/**
 * Encoding then decoding: the file encode_video writes
 * (vidproc/vidproc.cpp:148-262) plays back, under the decoders' reading of
 * the stream (src/decoder.cpp:49-95, vidproc/vidunproc.cpp:81-131), as the
 * encoder's own snapshots: frame 0 whole, and every later frame as the
 * previous snapshot with the changed chunks taken from the new frame and
 * every other pixel left as it was.
 */
module RoundTrip {
  import opened Opt
  import opened Bits
  import opened RunLength
  import opened Chunks
  import opened ChangeDetect
  import opened Playback
  import opened VideoFormat
  import opened VideoEncoder

  /** A non-zero mask names a chunk, and every chunk holds a pixel: the frame visits some pixel. */
  lemma {:induction false} NonzeroScan(g: Geometry, mask: nat)
    requires g.Valid() && 0 < mask < Pow2(ChunkCount)
    ensures Scan(g, mask) != []
  {
    var k := NonzeroHasBit(mask, ChunkCount);
    var cx, cy := k / ChunkCountY, k % ChunkCountY;
    ChunkInside(g, cx, cy);
    var x, y := X0(g, cx), Y0(g, cy);
    RegionIsChunk(g, cx, cy, x, y);
    ScanMembers(g, mask, x, y);
  }

  /** The bits of two byte strings one after the other. */
  lemma {:induction false} BitsOfBytesConcat(a: seq<Byte>, b: seq<Byte>)
    ensures BitsOfBytes(a + b) == BitsOfBytes(a) + BitsOfBytes(b)
    decreases |b|
  {
    if b == [] {
      assert a + b == a;
    } else {
      var b', last := b[..|b| - 1], b[|b| - 1];
      assert a + b == (a + b') + [last];
      assert b == b' + [last];
      BitsOfBytesAppend(a + b', last);
      BitsOfBytesAppend(b', last);
      BitsOfBytesConcat(a, b');
    }
  }

  /** Run-length coded pixels, where they stand in the stream, decode to those pixels and end where the code ends. */
  lemma {:induction false} RleDecodes(s: seq<bool>, pos: nat, px: seq<bool>, runs: seq<nat>)
    requires px != [] && RunsOf(px, runs) && HasAt(s, pos, RleBits(px, runs))
    ensures DecodeFrame(s, pos, |px|) == Some((px, pos + |RleBits(px, runs)|))
  {
    assert Expand(px[0], []) == [];
    HasAtCons(s, pos, px[0], Codes(runs));
    DecodeFrameOfRle(s, pos, px[0], runs);
  }

  /** A later frame's pixel data decodes to that frame's visited pixels; with a zero mask there is none. */
  lemma {:induction false} FrameDecodes(g: Geometry, s: seq<bool>, pos: nat, img: Image, mask: nat, runs: seq<nat>)
    requires g.Valid() && IsImage(g, img) && mask < Pow2(ChunkCount) && pos <= |s|
    requires RunsOf(Visited(g, img, mask), runs) && HasAt(s, pos, RleBits(Visited(g, img, mask), runs))
    ensures FramePixels(g, s, pos, mask) == Some((Visited(g, img, mask), pos + |RleBits(Visited(g, img, mask), runs)|))
  {
    if mask == 0 {
      EmptyMask(g);
    } else {
      NonzeroScan(g, mask);
      RleDecodes(s, pos, Visited(g, img, mask), runs);
    }
  }

  /** Writing cur's visited pixels over img is the encoder's commit of cur's changed chunks onto img. */
  lemma {:induction false} ApplyIsCommit(g: Geometry, img: Image, mask: nat, cur: Image)
    requires g.w >= 1 && g.h >= 1 && IsImage(g, img) && IsImage(g, cur)
    ensures Apply(g, img, mask, Visited(g, cur, mask)) == Commit(g, mask, img, cur)
  {
    var a, c := Apply(g, img, mask, Visited(g, cur, mask)), Commit(g, mask, img, cur);
    forall y | 0 <= y < g.h
      ensures a[y] == c[y]
    {
      forall x | 0 <= x < g.w
        ensures a[y][x] == c[y][x]
      {
        ApplyPixels(g, img, mask, cur, x, y);
      }
    }
  }

  /** Committing every chunk replaces the whole picture. */
  lemma {:induction false} CommitAll(g: Geometry, prev: Image, cur: Image)
    requires g.w >= 1 && g.h >= 1 && IsImage(g, prev) && IsImage(g, cur)
    ensures Commit(g, FullMask, prev, cur) == cur
  {
    var c := Commit(g, FullMask, prev, cur);
    forall y | 0 <= y < g.h
      ensures c[y] == cur[y]
    {
      forall x | 0 <= x < g.w
        ensures c[y][x] == cur[y][x]
      {
        FullMaskVisible(g, x, y);
      }
    }
  }

  /**
   * One later frame read at pos: its header, then its pixel data; the
   * picture shown becomes the commit of the frame's changed chunks, and the
   * rest of the stream plays from there.
   */
  lemma {:induction false} PlayStep(g: Geometry, s: seq<bool>, pos: nat, shown: Image, img: Image, mask: nat, runs: seq<nat>,
                 next: nat, after: Image, rest: seq<Image>)
    requires g.Valid() && IsImage(g, shown) && IsImage(g, img) && mask < Pow2(ChunkCount)
    requires RunsOf(Visited(g, img, mask), runs) && HasAt(s, pos, MaskBits(mask))
    requires HasAt(s, pos + ChunkCount, RleBits(Visited(g, img, mask), runs))
    requires next == pos + ChunkCount + |RleBits(Visited(g, img, mask), runs)|
    requires after == Commit(g, mask, shown, img) && Play(g, s, next, after) == Some(rest)
    ensures Play(g, s, pos, shown) == Some([after] + rest)
  {
    HeaderOfMask(s, pos, mask);
    FrameDecodes(g, s, pos + ChunkCount, img, mask, runs);
    ApplyIsCommit(g, shown, mask, img);
  }

  /** The three parts of a frame's bits, each where it stands. */
  lemma {:induction false} HasAtThree(s: seq<bool>, pos: nat, a: seq<bool>, b: seq<bool>, c: seq<bool>, mid: nat, end: nat)
    requires HasAt(s, pos, a + b + c) && mid == pos + |a| && end == mid + |b|
    ensures HasAt(s, pos, a) && HasAt(s, mid, b) && HasAt(s, end, c)
  {
    HasAtSplit(s, pos, a + b, c);
    HasAtSplit(s, pos, a, b);
  }

  /** A suffix is its first element and the suffix after it. */
  lemma {:induction false} SuffixCons<T>(xs: seq<T>, k: nat)
    requires k < |xs|
    ensures xs[k..] == [xs[k]] + xs[k + 1..]
  {
  }

  /** What the encoder's promise says of one later frame k. */
  lemma {:induction false} EncodedAt(g: Geometry, frames: seq<Image>, n: nat, masks: seq<nat>, runs: seq<seq<nat>>,
                  snaps: seq<Image>, accs: seq<seq<nat>>, k: nat)
    requires g.Valid() && AllImages(g, frames) && n <= |frames|
    requires Encoded(g, frames, n, masks, runs, snaps, accs) && 1 <= k < n
    ensures IsImage(g, snaps[k - 1]) && IsImage(g, frames[k]) && masks[k] < Pow2(ChunkCount)
    ensures RunsOf(Visited(g, frames[k], masks[k]), runs[k])
    ensures snaps[k] == Commit(g, masks[k], snaps[k - 1], frames[k])
    ensures StreamBits(g, frames, masks, runs, k + 1)
      == StreamBits(g, frames, masks, runs, k) + MaskBits(masks[k]) + RleBits(Visited(g, frames[k], masks[k]), runs[k])
  {
    assert FrameStep(g, accs[k - 1], snaps[k - 1], frames[k], masks[k], accs[k], snaps[k]);
  }

  /** Where the bits of n frames stand, the bits of the first k of them stand too. */
  lemma {:induction false} StreamPrefixAt(g: Geometry, frames: seq<Image>, masks: seq<nat>, runs: seq<seq<nat>>,
                                          n: nat, k: nat, s: seq<bool>, pos: nat)
    requires 1 <= k <= n && FramesCoded(g, frames, masks, runs, n)
    requires HasAt(s, pos, StreamBits(g, frames, masks, runs, n))
    ensures HasAt(s, pos, StreamBits(g, frames, masks, runs, k))
    decreases n
  {
    if k < n {
      var a := StreamBits(g, frames, masks, runs, n - 1);
      HasAtSplit(s, pos, a + MaskBits(masks[n - 1]), FrameData(g, frames, masks, runs, n - 1));
      HasAtSplit(s, pos, a, MaskBits(masks[n - 1]));
      StreamPrefixAt(g, frames, masks, runs, n - 1, k, s, pos);
    }
  }

  /**
   * Frame k of the stream, read after frame k - 1 is on screen, and every
   * frame after it play back as the encoder's snapshots k .. n - 1, and
   * the padding after the last frame is too short for another header.
   */
  lemma {:induction false} PlayFrom(g: Geometry, frames: seq<Image>, n: nat, masks: seq<nat>, runs: seq<seq<nat>>,
                                    snaps: seq<Image>, accs: seq<seq<nat>>, s: seq<bool>, k: nat, pos: nat)
    requires g.Valid() && AllImages(g, frames) && n <= |frames|
    requires Encoded(g, frames, n, masks, runs, snaps, accs) && 1 <= k <= n
    requires HasAt(s, 16, StreamBits(g, frames, masks, runs, n))
    requires |s| < 16 + |StreamBits(g, frames, masks, runs, n)| + ChunkCount
    requires pos == 16 + |StreamBits(g, frames, masks, runs, k)|
    ensures pos <= |s| && Play(g, s, pos, snaps[k - 1]) == Some(snaps[k..])
    decreases n - k
  {
    StreamPrefixAt(g, frames, masks, runs, n, k, s, 16);
    if k < n {
      EncodedAt(g, frames, n, masks, runs, snaps, accs, k);
      StreamPrefixAt(g, frames, masks, runs, n, k + 1, s, 16);
      var a := StreamBits(g, frames, masks, runs, k);
      var data := RleBits(Visited(g, frames[k], masks[k]), runs[k]);
      var next := pos + ChunkCount + |data|;
      HasAtThree(s, 16, a, MaskBits(masks[k]), data, pos, pos + ChunkCount);
      PlayFrom(g, frames, n, masks, runs, snaps, accs, s, k + 1, next);
      PlayStep(g, s, pos, snaps[k - 1], frames[k], masks[k], runs[k], next, snaps[k], snaps[k + 1..]);
      SuffixCons(snaps, k);
    } else {
      assert snaps[k..] == [];
    }
  }

  /** A sequence stands where it stands. */
  lemma {:induction false} HasAtMiddle(p: seq<bool>, t: seq<bool>, u: seq<bool>)
    ensures HasAt(p + (t + u), |p|, t)
  {
    forall i | 0 <= i < |t|
      ensures (p + (t + u))[|p| + i] == t[i]
    {
      assert (p + (t + u))[|p| + i] == (t + u)[i];
    }
  }

  /** The bits of a file: the two size bytes, then the bits after them. */
  lemma {:induction false} FileBits(data: seq<Byte>, bits: seq<bool>, pad: nat)
    requires |data| >= 2 && BitsOfBytes(data[2..]) == bits + Zeros(pad)
    ensures |BitsOfBytes(data)| == 16 + |bits| + pad && HasAt(BitsOfBytes(data), 16, bits)
  {
    var head := BitsOfBytes(data[..2]);
    assert data == data[..2] + data[2..];
    BitsOfBytesConcat(data[..2], data[2..]);
    HasAtMiddle(head, bits, Zeros(pad));
  }

  /**
   * The first frame, read at bit 16 with no header and every chunk
   * changed, replaces whatever was on screen; the rest of the stream plays
   * from there.
   */
  lemma {:induction false} VideoStart(g: Geometry, s: seq<bool>, blank: Image, img: Image, runs: seq<nat>, next: nat, rest: seq<Image>)
    requires g.Valid() && IsImage(g, blank) && IsImage(g, img) && RunsOf(Visited(g, img, FullMask), runs)
    requires HasAt(s, 16, RleBits(Visited(g, img, FullMask), runs))
    requires next == 16 + |RleBits(Visited(g, img, FullMask), runs)| && Play(g, s, next, img) == Some(rest)
    ensures 16 <= |s| && Video(g, s, blank) == Some([img] + rest)
  {
    FullMaskCount(g);
    RleDecodes(s, 16, Visited(g, img, FullMask), runs);
    ApplyIsCommit(g, blank, FullMask, img);
    CommitAll(g, blank, img);
  }

  /**
   * What encode_video writes plays back as its snapshots: a decoder that
   * takes the size from the first two bytes and starts from any picture
   * shows frame 0, then for each later frame the previous picture with the
   * changed chunks replaced by that frame's pixels and the rest untouched,
   * and stops at the padding.
   */
  lemma {:induction false} EncodedVideoPlays(g: Geometry, frames: seq<Image>, n: nat, masks: seq<nat>, runs: seq<seq<nat>>,
                          snaps: seq<Image>, accs: seq<seq<nat>>, data: seq<Byte>, pad: nat, blank: Image)
    requires g.Valid() && AllImages(g, frames) && n <= |frames| && IsImage(g, blank)
    requires Encoded(g, frames, n, masks, runs, snaps, accs)
    requires |data| >= 2 && data[0] == g.w && data[1] == g.h && pad <= 8
    requires BitsOfBytes(data[2..]) == StreamBits(g, frames, masks, runs, n) + Zeros(pad)
    ensures Geometry(data[0], data[1]) == g && 16 <= |BitsOfBytes(data)|
    ensures Video(g, BitsOfBytes(data), blank) == Some(snaps)
  {
    var s := BitsOfBytes(data);
    FileBits(data, StreamBits(g, frames, masks, runs, n), pad);
    StreamPrefixAt(g, frames, masks, runs, n, 1, s, 16);
    var first := StreamBits(g, frames, masks, runs, 1);
    PlayFrom(g, frames, n, masks, runs, snaps, accs, s, 1, 16 + |first|);
    VideoStart(g, s, blank, frames[0], runs[0], 16 + |first|, snaps[1..]);
    SuffixCons(snaps, 0);
  }
}
