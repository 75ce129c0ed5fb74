/**
 * Run-length layer of one frame's pixel data: the literal start colour, then
 * the code of every maximal run of equal pixels, colours alternating
 * (RunLengthEncoder in vidproc/vidproc.cpp), and the reader that expands it
 * again one pixel at a time (the `repeat`/`current` bookkeeping of
 * VideoDecoder::read_frame and of the read_frame lambda of vidunproc.cpp).
 */
module RunLength {
  import opened Bits
  import opened Opt
  import opened StartStepStop

  function Sum(r: seq<nat>): nat
  {
    if r == [] then 0 else r[0] + Sum(r[1..])
  }

  function Repeat(c: bool, k: nat): seq<bool>
  {
    seq(k, _ => c)
  }

  /** Runs of the given lengths, the first of colour c, colours alternating. */
  function Expand(c: bool, runs: seq<nat>): (r: seq<bool>)
    ensures |r| == Sum(runs)
    decreases runs
  {
    if runs == [] then [] else Repeat(c, runs[0]) + Expand(!c, runs[1..])
  }

  /** Every run is non-empty and short enough for the six-entry offset table. */
  predicate RunsFit(runs: seq<nat>)
  {
    forall i :: 0 <= i < |runs| ==> 1 <= runs[i] <= MaxRun
  }

  /** The codes of the given runs, in order. */
  function Codes(runs: seq<nat>): seq<bool>
    requires RunsFit(runs)
  {
    if runs == [] then [] else RunCode(runs[0]) + Codes(runs[1..])
  }

  /** The alternating colour of run j when run 0 has colour c. */
  function RunColour(c: bool, j: nat): bool
  {
    if j % 2 == 0 then c else !c
  }

  /** Colours alternate from run to run. */
  lemma {:induction false} RunColourNext(c: bool, j: nat)
    ensures RunColour(c, j + 1) == !RunColour(c, j)
  {
  }

  lemma {:induction false} SumAppend(r: seq<nat>, k: nat)
    ensures Sum(r + [k]) == Sum(r) + k
  {
    if r != [] {
      assert (r + [k])[1..] == r[1..] + [k];
      SumAppend(r[1..], k);
    }
  }

  lemma {:induction false} ExpandAppend(c: bool, r: seq<nat>, k: nat)
    ensures Expand(c, r + [k]) == Expand(c, r) + Repeat(RunColour(c, |r|), k)
    decreases r
  {
    if r == [] {
      assert Expand(!c, []) == [];
    } else {
      assert (r + [k])[1..] == r[1..] + [k];
      ExpandAppend(!c, r[1..], k);
      assert RunColour(!c, |r| - 1) == RunColour(c, |r|);
    }
  }

  lemma {:induction false} CodesAppend(r: seq<nat>, k: nat)
    requires RunsFit(r) && 1 <= k <= MaxRun
    ensures RunsFit(r + [k]) && Codes(r + [k]) == Codes(r) + RunCode(k)
  {
    if r != [] {
      assert (r + [k])[1..] == r[1..] + [k];
      CodesAppend(r[1..], k);
    }
  }

  /**
   * What the encoder writes for the pixels px it was fed: nothing for no
   * pixel, else the first pixel literally and the codes of the runs.
   */
  function RleBits(px: seq<bool>, runs: seq<nat>): seq<bool>
    requires RunsFit(runs)
  {
    if px == [] then [] else [px[0]] + Codes(runs)
  }

  /** runs are the run lengths of px: each fits the code table, and they expand to px from its first colour. */
  predicate RunsOf(px: seq<bool>, runs: seq<nat>)
  {
    RunsFit(runs) && (if px == [] then runs == [] else Expand(px[0], runs) == px)
  }

  /** The first run of a non-empty expansion. */
  lemma {:induction false} ExpandFirst(c: bool, runs: seq<nat>)
    requires runs != [] && RunsFit(runs)
    ensures |Expand(c, runs)| >= runs[0] >= 1
    ensures Expand(c, runs)[..runs[0]] == Repeat(c, runs[0])
    ensures Expand(c, runs)[runs[0]..] == Expand(!c, runs[1..])
  {
    var rest := runs[1..];
    assert RunsFit(rest) by {
      forall i | 0 <= i < |rest| ensures 1 <= rest[i] <= MaxRun {
        assert rest[i] == runs[i + 1];
      }
    }
    assert Expand(c, runs) == Repeat(c, runs[0]) + Expand(!c, rest);
  }

  /**
   * Alternating positive runs are the maximal runs: two run sequences that
   * expand to the same pixels from the same colour are equal, so the encoder
   * codes each maximal run exactly once.
   */
  lemma {:induction false} ExpandUnique(c: bool, r1: seq<nat>, r2: seq<nat>)
    requires RunsFit(r1) && RunsFit(r2) && Expand(c, r1) == Expand(c, r2)
    ensures r1 == r2
    decreases |r1|
  {
    if r1 == [] || r2 == [] {
      if r1 != [] {
        ExpandFirst(c, r1);
      } else if r2 != [] {
        ExpandFirst(c, r2);
      }
    } else {
      ExpandFirst(c, r1);
      ExpandFirst(c, r2);
      var e := Expand(c, r1);
      var a, b := r1[0], r2[0];
      if a < b {
        FlipAfterRun(c, r1, r2);
      } else if b < a {
        FlipAfterRun(c, r2, r1);
      } else {
        assert Expand(!c, r1[1..]) == Expand(!c, r2[1..]);
        ExpandUnique(!c, r1[1..], r2[1..]);
        assert r1 == [a] + r1[1..] && r2 == [b] + r2[1..];
      }
    }
  }

  /** A first run shorter than another's first run cannot expand to the same pixels. */
  lemma {:induction false} FlipAfterRun(c: bool, r1: seq<nat>, r2: seq<nat>)
    requires r1 != [] && r2 != [] && RunsFit(r1) && RunsFit(r2) && r1[0] < r2[0]
    ensures Expand(c, r1) != Expand(c, r2)
  {
    ExpandFirst(c, r1);
    ExpandFirst(c, r2);
    var a := r1[0];
    var rest := r1[1..];
    if rest == [] {
      assert |Expand(c, r1)| == a;
    } else {
      ExpandFirst(!c, rest);
      assert Expand(c, r1)[a] == Expand(!c, rest)[0] == !c;
      assert Expand(c, r2)[a] == Repeat(c, r2[0])[a] == c;
    }
  }

  // ---------------------------------------------------------------------------
  // The reader's side

  /** The reader's state: colour being written, pixels left in the current run, bit position. */
  datatype RunState = RunState(current: bool, repeat: nat, pos: nat)

  /**
   * One pixel: when the run is used up, flip the colour and read the next run
   * length; then use one pixel of the run. The pixel's colour is the new
   * state's `current`.
   */
  function Step(s: seq<bool>, st: RunState): (r: Option<RunState>)
    ensures r.Some? && st.repeat > 0 ==> r.value == st.(repeat := st.repeat - 1)
  {
    if st.repeat == 0 then
      match ReadRunFrom(s, st.pos, 1)
      case None => None
      case Some((n, next)) => Some(RunState(!st.current, n - 1, next))
    else Some(st.(repeat := st.repeat - 1))
  }

  /** n pixels from state st, with the state after the last; None when a run code cannot be read. */
  function DecodePixels(s: seq<bool>, st: RunState, n: nat): (r: Option<(seq<bool>, RunState)>)
    ensures r.Some? ==> |r.value.0| == n
    decreases n
  {
    if n == 0 then Some(([], st))
    else match Step(s, st)
      case None => None
      case Some(st') =>
        match DecodePixels(s, st', n - 1)
        case None => None
        case Some((px, fin)) => Some(([st'.current] + px, fin))
  }

  /**
   * The pixel data of one frame with n visited pixels starting at bit pos:
   * the literal start colour, the first run length, then n pixels. Gives the
   * pixels and the position after the last code read.
   */
  function DecodeFrame(s: seq<bool>, pos: nat, n: nat): (r: Option<(seq<bool>, nat)>)
    ensures r.Some? ==> |r.value.0| == n && pos < r.value.1 <= |s|
  {
    if pos >= |s| then None
    else match ReadRun(s, pos + 1)
      case None => None
      case Some((k, next)) =>
        match DecodePixels(s, RunState(s[pos], k, next), n)
        case None => None
        case Some((px, fin)) =>
          DecodePixelsPos(s, RunState(s[pos], k, next), n);
          Some((px, fin.pos))
  }

  /** A frame that decodes starts with its colour bit inside the data and a run code after it. */
  lemma {:induction false} FrameReadable(s: seq<bool>, p0: nat, n: nat)
    requires DecodeFrame(s, p0, n).Some?
    ensures p0 < |s| && ReadRun(s, p0 + 1).Some?
  {
  }

  /** Decoding never moves backwards and never past the end of the data. */
  lemma {:induction false} DecodePixelsPos(s: seq<bool>, st: RunState, n: nat)
    requires st.pos <= |s| && DecodePixels(s, st, n).Some?
    ensures st.pos <= DecodePixels(s, st, n).value.1.pos <= |s|
    decreases n
  {
    if n > 0 {
      DecodePixelsPos(s, Step(s, st).value, n - 1);
    }
  }

  /** Using up the rest of the current run reads nothing. */
  lemma {:induction false} DecodeRest(s: seq<bool>, c: bool, rep: nat, pos: nat, m: nat)
    ensures var whole := DecodePixels(s, RunState(c, rep, pos), rep + m);
      var tail := DecodePixels(s, RunState(c, 0, pos), m);
      whole.Some? == tail.Some? &&
      (tail.Some? ==> whole.value == (Repeat(c, rep) + tail.value.0, tail.value.1))
    decreases rep
  {
    var whole := DecodePixels(s, RunState(c, rep, pos), rep + m);
    var tail := DecodePixels(s, RunState(c, 0, pos), m);
    if rep > 0 {
      var st' := RunState(c, rep - 1, pos);
      assert Step(s, RunState(c, rep, pos)) == Some(st');
      var inner := DecodePixels(s, st', rep - 1 + m);
      DecodeRest(s, c, rep - 1, pos, m);
      if tail.Some? {
        assert whole == Some(([c] + inner.value.0, inner.value.1));
        assert [c] + (Repeat(c, rep - 1) + tail.value.0) == Repeat(c, rep) + tail.value.0;
      }
    } else {
      assert whole == tail;
      if tail.Some? {
        assert Repeat(c, 0) + tail.value.0 == tail.value.0;
      }
    }
  }

  /**
   * With the previous run used up, a run length k read at pos gives k pixels
   * of the flipped colour, and then decoding goes on where the read ended.
   */
  lemma {:induction false} DecodeRun(s: seq<bool>, c: bool, pos: nat, k: nat, next: nat, m: nat)
    requires ReadRun(s, pos) == Some((k, next))
    ensures var whole := DecodePixels(s, RunState(c, 0, pos), k + m);
      var tail := DecodePixels(s, RunState(!c, 0, next), m);
      whole.Some? == tail.Some? &&
      (tail.Some? ==> whole.value == (Repeat(!c, k) + tail.value.0, tail.value.1))
  {
    var st1 := RunState(!c, k - 1, next);
    assert Step(s, RunState(c, 0, pos)) == Some(st1);
    var tail := DecodePixels(s, RunState(!c, 0, next), m);
    DecodeRest(s, !c, k - 1, next, m);
    if tail.Some? {
      assert [!c] + (Repeat(!c, k - 1) + tail.value.0) == Repeat(!c, k) + tail.value.0;
    }
  }

  /** The codes of runs at pos: the first run is read there, the codes of the others follow. */
  lemma {:induction false} CodesAt(s: seq<bool>, pos: nat, runs: seq<nat>)
    requires runs != [] && RunsFit(runs) && HasAt(s, pos, Codes(runs))
    ensures ReadRun(s, pos) == Some((runs[0], pos + |RunCode(runs[0])|))
    ensures HasAt(s, pos + |RunCode(runs[0])|, Codes(runs[1..]))
    ensures |Codes(runs)| == |RunCode(runs[0])| + |Codes(runs[1..])|
  {
    assert Codes(runs) == RunCode(runs[0]) + Codes(runs[1..]);
    HasAtSplit(s, pos, RunCode(runs[0]), Codes(runs[1..]));
    ReadRunOfCode(s, pos, runs[0]);
  }

  /** Codes of whole runs, starting with the previous run used up, expand to those runs. */
  lemma {:induction false} DecodeCodes(s: seq<bool>, c: bool, pos: nat, runs: seq<nat>)
    requires RunsFit(runs) && HasAt(s, pos, Codes(runs))
    ensures var d := DecodePixels(s, RunState(c, 0, pos), Sum(runs));
      d.Some? && d.value.0 == Expand(!c, runs)
      && d.value.1.repeat == 0 && d.value.1.pos == pos + |Codes(runs)|
    decreases runs
  {
    if runs != [] {
      var k := runs[0];
      var rest := runs[1..];
      var next := pos + |RunCode(k)|;
      CodesAt(s, pos, runs);
      assert RunsFit(rest);
      DecodeCodes(s, !c, next, rest);
      DecodeRun(s, c, pos, k, next, Sum(rest));
      var tail := DecodePixels(s, RunState(!c, 0, next), Sum(rest));
      assert Sum(runs) == k + Sum(rest);
      assert Expand(!c, runs) == Repeat(!c, k) + tail.value.0;
    } else {
      assert Sum(runs) == 0;
    }
  }

  /**
   * Round trip of the pixel data: where the start colour c and the codes of
   * runs stand at pos, the reader, told how many pixels to visit, gives back
   * the expanded runs and stops right after the last code.
   */
  lemma {:induction false} DecodeFrameOfRle(s: seq<bool>, pos: nat, c: bool, runs: seq<nat>)
    requires runs != [] && RunsFit(runs)
    requires pos < |s| && s[pos] == c && HasAt(s, pos + 1, Codes(runs))
    ensures DecodeFrame(s, pos, Sum(runs)) == Some((Expand(c, runs), pos + 1 + |Codes(runs)|))
  {
    var k := runs[0];
    var rest := runs[1..];
    CodesAt(s, pos + 1, runs);
    var next := pos + 1 + |RunCode(k)|;
    PixelsOfRle(s, c, next, runs);
    var d := DecodePixels(s, RunState(c, k, next), Sum(runs)).value;
    FrameOfParts(s, pos, k, next, Sum(runs), d.0, d.1);
  }

  /** The pixels after the first run length: the first run, then the codes of the others. */
  lemma {:induction false} PixelsOfRle(s: seq<bool>, c: bool, next: nat, runs: seq<nat>)
    requires runs != [] && RunsFit(runs) && HasAt(s, next, Codes(runs[1..]))
    ensures var d := DecodePixels(s, RunState(c, runs[0], next), Sum(runs));
      d.Some? && d.value.0 == Expand(c, runs) && d.value.1.pos == next + |Codes(runs[1..])|
  {
    var k := runs[0];
    var rest := runs[1..];
    var tail := DecodePixels(s, RunState(c, 0, next), Sum(rest));
    DecodeRest(s, c, k, next, Sum(rest));
    DecodeCodes(s, c, next, rest);
    assert Sum(runs) == k + Sum(rest);
    assert Expand(c, runs) == Repeat(c, k) + Expand(!c, rest);
  }

  /** DecodeFrame from its parts: the start bit, the first run, the pixels. */
  lemma {:induction false} FrameOfParts(s: seq<bool>, pos: nat, k: nat, next: nat, n: nat, px: seq<bool>, fin: RunState)
    requires pos < |s| && ReadRun(s, pos + 1) == Some((k, next))
    requires DecodePixels(s, RunState(s[pos], k, next), n) == Some((px, fin))
    ensures DecodeFrame(s, pos, n) == Some((px, fin.pos))
  {
  }

  /**
   * The state of a decoder's pixel loop after i pixels: decoding the
   * rest from (current, repeat, pos) gives the remaining colours of px
   * and ends in fin.
   */
  ghost predicate Decoding(s: seq<bool>, current: bool, repeat: nat, pos: nat, px: seq<bool>, fin: RunState, i: nat)
  {
    i <= |px| && DecodePixels(s, RunState(current, repeat, pos), |px| - i) == Some((px[i..], fin))
  }

  /**
   * The start of a frame's pixel data: after the start bit and the first
   * run length, decoding the n pixels from that state gives the frame's
   * colours px and a final state fin whose position ends the frame.
   */
  lemma {:induction false} FrameStart(s: seq<bool>, p0: nat, n: nat, st: RunState) returns (px: seq<bool>, fin: RunState)
    requires DecodeFrame(s, p0, n).Some? && p0 < |s|
    requires st.current == s[p0] && ReadRun(s, p0 + 1) == Some((st.repeat, st.pos))
    ensures DecodeFrame(s, p0, n) == Some((px, fin.pos))
    ensures Decoding(s, st.current, st.repeat, st.pos, px, fin, 0)
  {
    var r := DecodePixels(s, st, n);
    assert RunState(s[p0], st.repeat, st.pos) == st;
    px, fin := r.value.0, r.value.1;
    assert px[0..] == px;
  }

  /** One more pixel decoded: its colour is px[i]. */
  lemma {:induction false} DecodingStep(s: seq<bool>, st: RunState, st': RunState, px: seq<bool>, fin: RunState, i: nat)
    requires Decoding(s, st.current, st.repeat, st.pos, px, fin, i) && i < |px|
    ensures Step(s, st).Some?
    ensures Step(s, st) == Some(st') ==> st'.current == px[i] && Decoding(s, st'.current, st'.repeat, st'.pos, px, fin, i + 1)
  {
    var n := |px| - i;
    assert RunState(st.current, st.repeat, st.pos) == st;
    assert DecodePixels(s, st, n).Some?;
    if Step(s, st) == Some(st') {
      var rest := DecodePixels(s, st', n - 1);
      assert rest.Some?;
      assert [st'.current] + rest.value.0 == px[i..] && rest.value.1 == fin;
      assert px[i..] == [px[i]] + px[i + 1..];
      assert rest.value.0 == px[i + 1..];
      assert RunState(st'.current, st'.repeat, st'.pos) == st';
    }
  }

  /** Once every pixel is decoded, the reader stands where the frame's pixel data ends. */
  lemma {:induction false} DecodedAll(s: seq<bool>, current: bool, repeat: nat, pos: nat, px: seq<bool>, fin: RunState)
    requires Decoding(s, current, repeat, pos, px, fin, |px|)
    ensures pos == fin.pos
  {
  }
}
