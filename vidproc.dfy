/**
 * The offline encoder of vidproc/vidproc.cpp: a bit writer packing bits into
 * bytes most significant bit first, the run-length encoder that writes the
 * start-step-stop code of every run, and the frame loop of encode_video with
 * its chunk change detector and chunk-skipping scan. The processed frames
 * (the output of process_frame) are given as bilevel images; the bytes put
 * to the output stream are the `bytes` of the bit writer, after the two
 * size bytes.
 */
module VidProc {
  import opened Bits
  import opened StartStepStop
  import opened RunLength
  import opened Chunks


  /** BitStream: bits are shifted into `buf`; after the 8th the byte is put to the stream. */
  class BitStream {
    /** The bytes put to the output stream so far. */
    var bytes: seq<Byte>
    /** The pending bits, the first written in the highest position. */
    var buf: nat
    /** How many bits are pending, 0..7. */
    var count: nat

    /** Every bit written so far, in order. */
    ghost var written: seq<bool>

    /** The written bits are the complete bytes followed by the pending bits. */
    ghost predicate Valid()
      reads this
    {
      count < 8 && buf < Pow2(count) && written == BitsOfBytes(bytes) + Msb(buf, count)
    }

    constructor ()
      ensures Valid() && bytes == [] && count == 0 && written == []
    {
      bytes := [];
      buf := 0;
      count := 0;
      written := [];
    }

    /**
     * write: append one bit. A byte is put exactly when this is the 8th
     * pending bit; the written bits are always the stream so far followed by
     * the pending ones.
     */
    method Write(bit: bool)
      requires Valid()
      modifies this
      ensures Valid() && written == old(written) + [bit]
      ensures count == (old(count) + 1) % 8
      ensures old(count) < 7 ==> bytes == old(bytes)
      ensures old(count) == 7 ==> |bytes| == |old(bytes)| + 1 && bytes[..|old(bytes)|] == old(bytes)
    {
      var b := 2 * buf + (if bit then 1 else 0);
      PushBit(bytes, buf, count, bit);
      written := written + [bit];
      count := count + 1;
      if count == 8 {
        bytes := bytes + [b];
        buf, count := 0, 0;
      } else {
        buf := b;
      }
    }

    /** Write k one bits. */
    method WriteOnes(k: nat)
      requires Valid()
      modifies this
      ensures Valid() && written == old(written) + Ones(k)
    {
      var i := 0;
      while i < k
        invariant i <= k && Valid() && written == old(written) + Ones(i)
      {
        Write(true);
        assert Ones(i) + [true] == Ones(i + 1);
        i := i + 1;
      }
    }

    /** `int mask = 1 << w; while (mask >>= 1) stream << (v & mask);`: v in w bits, most significant first. */
    method WriteValue(v: nat, w: nat)
      requires Valid()
      modifies this
      ensures Valid() && written == old(written) + Msb(v, w)
    {
      var k: nat := w;
      while k > 0
        invariant k <= w && Valid() && written == old(written) + TopBits(v, w, w - k)
      {
        k := k - 1;
        Write(Bit(v, k));
      }
      TopBitsAll(v, w);
    }

    /**
     * The group search of flush: `for (groups = 1; m >= OFFSETS[groups]; groups ++);`
     * gives the least group count whose range holds m.
     */
    static method FindGroups(m: nat) returns (groups: nat)
      requires m < MaxRun
      ensures groups == Groups(m)
    {
      groups := 1;
      while m >= Offset(groups)
        invariant 1 <= groups <= MaxGroups && Offset(groups - 1) <= m
        invariant GroupsFrom(m, groups) == Groups(m)
        decreases MaxGroups - groups
      {
        groups := groups + 1;
      }
    }

    /**
     * The body of flush for a run of n pixels: find the group count for
     * n - 1, subtract the offset below it, write `groups - 1` ones, a zero,
     * and the value in 3 * groups bits.
     */
    method WriteCode(n: nat)
      requires Valid() && 1 <= n <= MaxRun
      modifies this
      ensures Valid() && written == old(written) + RunCode(n)
    {
      ghost var g, v := CodeParts(n);
      ghost var w0 := written;
      var groups := FindGroups(n - 1);
      var rep := n - 1 - Offset(groups - 1);
      assert groups == g && rep == v;
      WriteOnes(groups - 1);
      Write(false);
      WriteValue(rep, GroupSize * groups);
      Concat3(w0, Ones(g - 1), [false], Msb(v, GroupSize * g));
    }

    /**
     * The destructor: put the pending bits left-justified in one more byte,
     * zero-padded. A byte is put even when nothing is pending.
     */
    method Finish()
      requires Valid()
      modifies this
      ensures |bytes| == |old(bytes)| + 1
      ensures BitsOfBytes(bytes) == old(written) + Zeros(8 - old(count))
      ensures buf == old(buf) && count == old(count)
    {
      PadByte(buf, count);
      var b: Byte := buf * Pow2(8 - count);
      PadBits(bytes, b, buf, count);
      bytes := bytes + [b];
    }
  }

  /**
   * The run-length encoder's invariant over its state: before the first
   * pixel nothing has been written; after it, the pixels fed are the runs
   * coded so far followed by the current run of `repeat` pixels of colour
   * `val`, and the bits written since the encoder was made are the first
   * pixel and the codes of the finished runs.
   */
  ghost predicate EncoderInv(repeat: int, val: bool, pixels: seq<bool>, runs: seq<nat>,
                             written: seq<bool>, before: seq<bool>)
  {
    RunsFit(runs) &&
    (repeat == -1 ==> pixels == [] && runs == [] && written == before) &&
    (repeat != -1 ==>
      1 <= repeat <= |pixels| && pixels != []
      && Expand(pixels[0], runs + [repeat]) == pixels
      && val == RunColour(pixels[0], |runs|)
      && written == before + [pixels[0]] + Codes(runs))
  }

  /** The first pixel: written literally, a run of one. */
  lemma {:induction false} InvFirst(bit: bool, before: seq<bool>)
    ensures EncoderInv(1, bit, [bit], [], before + [bit], before)
  {
    assert Expand(bit, [1]) == Repeat(bit, 1) + Expand(!bit, []);
  }

  /** A pixel of the current colour lengthens the current run. */
  lemma {:induction false} InvSame(repeat: int, val: bool, pixels: seq<bool>, runs: seq<nat>, written: seq<bool>, before: seq<bool>)
    requires EncoderInv(repeat, val, pixels, runs, written, before) && repeat != -1
    ensures EncoderInv(repeat + 1, val, pixels + [val], runs, written, before)
  {
    ExtendRun(pixels[0], runs, repeat, val);
  }

  /** A pixel of the other colour: the current run is coded and a run of one starts. */
  lemma {:induction false} InvFlip(repeat: int, val: bool, pixels: seq<bool>, runs: seq<nat>, written: seq<bool>, before: seq<bool>)
    requires EncoderInv(repeat, val, pixels, runs, written, before) && repeat != -1 && |pixels| < MaxRun
    ensures EncoderInv(1, !val, pixels + [!val], runs + [repeat], written + RunCode(repeat), before)
  {
    FlipCode(pixels[0], runs, repeat, written, before);
    FlipExpand(pixels[0], runs, repeat, pixels, val);
  }

  lemma {:induction false} FlipCode(c: bool, runs: seq<nat>, repeat: nat, written: seq<bool>, before: seq<bool>)
    requires RunsFit(runs) && 1 <= repeat <= MaxRun && written == before + [c] + Codes(runs)
    ensures RunsFit(runs + [repeat]) && written + RunCode(repeat) == before + [c] + Codes(runs + [repeat])
  {
    CodesAppend(runs, repeat);
  }

  lemma {:induction false} FlipExpand(c: bool, runs: seq<nat>, repeat: nat, pixels: seq<bool>, val: bool)
    requires Expand(c, runs + [repeat]) == pixels && val == RunColour(c, |runs|)
    ensures Expand(c, runs + [repeat] + [1]) == pixels + [!val]
    ensures !val == RunColour(c, |runs + [repeat]|)
  {
    var runs' := runs + [repeat];
    ExpandAppend(c, runs', 0);
    assert Repeat(RunColour(c, |runs'|), 0) == [];
    RunColourNext(c, |runs|);
    ExtendRun(c, runs', 0, !val);
  }

  /** After the last run is coded, the bits written are the run-length code of the pixels fed. */
  lemma {:induction false} InvFinish(repeat: int, val: bool, pixels: seq<bool>, runs: seq<nat>, written: seq<bool>, before: seq<bool>)
    requires EncoderInv(repeat, val, pixels, runs, written, before) && |pixels| <= MaxRun
    ensures repeat != -1 ==> RunsOf(pixels, runs + [repeat]) && written + RunCode(repeat) == before + RleBits(pixels, runs + [repeat])
    ensures repeat == -1 ==> RunsOf(pixels, runs) && written == before + RleBits(pixels, runs)
  {
    if repeat != -1 {
      CodesAppend(runs, repeat);
      var runs' := runs + [repeat];
      assert RleBits(pixels, runs') == [pixels[0]] + Codes(runs');
      Concat3(before, [pixels[0]], Codes(runs), RunCode(repeat));
    }
  }

  /**
   * RunLengthEncoder over a bit writer: `repeat` is -1 until the first pixel,
   * which is written literally; after that `val` is the colour of the current
   * run and `repeat` its length so far. The ghost fields record the pixels
   * fed, the runs already coded, and the bits written before the encoder was
   * made.
   */
  class RunLengthEncoder {
    const out: BitStream
    var val: bool
    var repeat: int
    ghost var before: seq<bool>
    ghost var pixels: seq<bool>
    ghost var runs: seq<nat>

    ghost predicate Valid()
      reads this, out
    {
      out.Valid() && EncoderInv(repeat, val, pixels, runs, out.written, before)
    }

    constructor (out: BitStream)
      requires out.Valid()
      ensures Valid() && this.out == out && pixels == [] && before == out.written
    {
      this.out := out;
      val := false;
      repeat := -1;
      before := out.written;
      pixels := [];
      runs := [];
    }

    /**
     * flush: nothing when no run is pending; else the code of the run
     * (`repeat` pixels), then the colour flips and the count restarts at 0.
     */
    method Flush()
      requires out.Valid() && repeat <= MaxRun
      modifies this, out
      ensures out.Valid() && before == old(before) && pixels == old(pixels) && runs == old(runs)
      ensures old(repeat) < 1 ==>
        repeat == old(repeat) && val == old(val) && out.written == old(out.written)
      ensures old(repeat) >= 1 ==>
        repeat == 0 && val == !old(val) && out.written == old(out.written) + RunCode(old(repeat))
    {
      if repeat < 1 {
        return;
      }
      out.WriteCode(repeat);
      repeat := 0;
      val := !val;
    }

    /**
     * encode: the first pixel is written literally and starts a run; a
     * pixel of the current colour lengthens the run; any other pixel first
     * flushes the run.
     */
    method Encode(bit: bool)
      requires Valid() && |pixels| < MaxRun
      modifies this, out
      ensures Valid() && pixels == old(pixels) + [bit] && before == old(before)
    {
      if repeat == -1 {
        out.Write(bit);
        val := bit;
        repeat := 1;
        pixels := [bit];
        InvFirst(bit, before);
      } else {
        if bit != val {
          InvFlip(repeat, val, pixels, runs, out.written, before);
          ghost var r := repeat;
          Flush();
          runs := runs + [r];
        } else {
          InvSame(repeat, val, pixels, runs, out.written, before);
        }
        repeat := repeat + 1;
        pixels := pixels + [bit];
      }
    }

    /** The destructor: flush the last run; the bits written are then the run-length code of all pixels fed. */
    method Finish()
      requires Valid() && |pixels| <= MaxRun
      modifies this, out
      ensures out.Valid() && pixels == old(pixels) && before == old(before)
      ensures RunsOf(pixels, runs) && out.written == before + RleBits(pixels, runs)
    {
      InvFinish(repeat, val, pixels, runs, out.written, before);
      if repeat != -1 {
        ghost var r := repeat;
        Flush();
        runs := runs + [r];
      }
    }
  }

  /** `buf << (8 - count)` fits in a byte. */
  lemma {:induction false} PadByte(buf: nat, count: nat)
    requires count < 8 && buf < Pow2(count)
    ensures buf * Pow2(8 - count) < 256
  {
    MsbShift(buf, count, 8 - count);
    Pow2Byte();
  }

  /** The padded byte adds the pending bits and 8 - count zero bits to the stream. */
  lemma {:induction false} PadBits(bytes: seq<Byte>, b: Byte, buf: nat, count: nat)
    requires count < 8 && buf < Pow2(count) && b == buf * Pow2(8 - count)
    ensures BitsOfBytes(bytes + [b]) == BitsOfBytes(bytes) + Msb(buf, count) + Zeros(8 - count)
  {
    MsbShift(buf, count, 8 - count);
    BitsOfBytesAppend(bytes, b);
  }

  lemma {:induction false} Concat3(w: seq<bool>, a: seq<bool>, b: seq<bool>, c: seq<bool>)
    ensures w + a + b + c == w + (a + b + c)
  {
  }

  /** A run of `rep` pixels of colour RunColour(c, |runs|) lengthened by one pixel of that colour. */
  lemma {:induction false} ExtendRun(c: bool, runs: seq<nat>, rep: nat, bit: bool)
    requires bit == RunColour(c, |runs|)
    ensures Expand(c, runs + [rep + 1]) == Expand(c, runs + [rep]) + [bit]
  {
    ExpandAppend(c, runs, rep);
    ExpandAppend(c, runs, rep + 1);
    assert Repeat(bit, rep + 1) == Repeat(bit, rep) + [bit];
  }
}
