/**
 * Bit-level arithmetic shared by the encoder and both decoders: MSB-first
 * numbers, single bits of an integer, and the bit view of a byte sequence.
 * Bytes are integers in 0..255; a bit test `(v & (1 << k)) != 0` of the C++
 * sources is written `Bit(v, k)`.
 */
module Bits {

  /** An unsigned 8-bit value (`uint8_t`, a `char` put to a stream). */
  type Byte = x: int | 0 <= x < 256

  /** 2 to the power n. */
  function Pow2(n: nat): (r: nat)
    ensures r >= 1
  {
    if n == 0 then 1 else 2 * Pow2(n - 1)
  }

  lemma {:induction false} Pow2Le(a: nat, b: nat)
    requires a <= b
    ensures Pow2(a) <= Pow2(b)
    decreases b - a
  {
    if a < b {
      Pow2Le(a, b - 1);
    }
  }

  lemma {:induction false} Pow2Byte()
    ensures Pow2(8) == 256
  {
    assert Pow2(4) == 16;
  }

  lemma {:induction false} Pow2Add(a: nat, b: nat)
    ensures Pow2(a + b) == Pow2(a) * Pow2(b)
    decreases a
  {
    if a > 0 {
      Pow2Add(a - 1, b);
      assert Pow2(a + b) == 2 * Pow2(a - 1 + b);
    }
  }

  /** Bit k of v: `(v & (1 << k)) != 0`. */
  function Bit(v: nat, k: nat): bool
  {
    if k == 0 then v % 2 == 1 else Bit(v / 2, k - 1)
  }

  /** `v | (1 << k)`. */
  function SetBit(v: nat, k: nat): nat
  {
    if Bit(v, k) then v else v + Pow2(k)
  }

  /** `~0` on an n-bit unsigned type: all n bits set. */
  function AllOnes(n: nat): nat
  {
    Pow2(n) - 1
  }

  function Zeros(n: nat): seq<bool>
  {
    seq(n, _ => false)
  }

  function Ones(n: nat): seq<bool>
  {
    seq(n, _ => true)
  }

  lemma {:induction false} OnesCons(n: nat)
    ensures [true] + Ones(n) == Ones(n + 1)
  {
  }

  /** The same, with a tail after the ones. */
  lemma {:induction false} OnesConsBefore(n: nat, tail: seq<bool>)
    ensures [true] + (Ones(n) + tail) == Ones(n + 1) + tail
  {
    OnesCons(n);
  }

  /**
   * The number whose binary digits, most significant first, are the w bits
   * of s from q on: `out = out << 1 | bit` over those bits.
   */
  function ValueAt(s: seq<bool>, q: nat, w: nat): (r: nat)
    requires q + w <= |s|
    ensures r < Pow2(w)
  {
    if w == 0 then 0 else 2 * ValueAt(s, q, w - 1) + (if s[q + w - 1] then 1 else 0)
  }

  /** The number whose binary digits, most significant first, are bs. */
  function Value(bs: seq<bool>): (r: nat)
    ensures r < Pow2(|bs|)
  {
    ValueAt(bs, 0, |bs|)
  }

  /** The n low bits of v, most significant first. */
  function Msb(v: nat, n: nat): (r: seq<bool>)
    ensures |r| == n
  {
    if n == 0 then [] else Msb(v / 2, n - 1) + [v % 2 == 1]
  }

  /** Shifting a bit in at the bottom appends it to the representation. */
  lemma {:induction false} MsbSnoc(v: nat, n: nat, b: bool)
    ensures Msb(2 * v + (if b then 1 else 0), n + 1) == Msb(v, n) + [b]
  {
    var w := 2 * v + (if b then 1 else 0);
    assert w / 2 == v && w % 2 == (if b then 1 else 0);
  }

  /** The bits of a byte sequence, each byte most significant bit first. */
  function BitsOfBytes(bytes: seq<Byte>): (r: seq<bool>)
    ensures |r| == 8 * |bytes|
    decreases |bytes|
  {
    if bytes == [] then [] else BitsOfBytes(bytes[..|bytes| - 1]) + Msb(bytes[|bytes| - 1], 8)
  }

  /** Where the n-bit representation of v stands at q, reading n bits there gives v. */
  lemma {:induction false} ValueAtOfMsb(s: seq<bool>, q: nat, v: nat, n: nat)
    requires v < Pow2(n) && HasAt(s, q, Msb(v, n))
    ensures ValueAt(s, q, n) == v
  {
    if n > 0 {
      var m := Msb(v, n);
      assert m == Msb(v / 2, n - 1) + [v % 2 == 1];
      HasAtSplit(s, q, Msb(v / 2, n - 1), [v % 2 == 1]);
      assert s[q + (n - 1)] == [v % 2 == 1][0];
      ValueAtOfMsb(s, q, v / 2, n - 1);
    }
  }

  /** Reading n bits at q as a number and writing it back in n bits gives those bits. */
  lemma {:induction false} MsbOfValueAt(s: seq<bool>, q: nat, n: nat)
    requires q + n <= |s|
    ensures HasAt(s, q, Msb(ValueAt(s, q, n), n))
  {
    if n > 0 {
      MsbOfValueAt(s, q, n - 1);
      var v := ValueAt(s, q, n);
      var b := if s[q + n - 1] then 1 else 0;
      assert v / 2 == ValueAt(s, q, n - 1) && v % 2 == b;
      var m := Msb(v, n);
      assert m == Msb(v / 2, n - 1) + [v % 2 == 1];
      forall i | 0 <= i < n
        ensures s[q + i] == m[i]
      {
        if i < n - 1 {
          assert m[i] == Msb(v / 2, n - 1)[i];
        }
      }
    }
  }

  /** Bits beyond the ones read do not matter. */
  lemma {:induction false} ValueAtPrefix(s: seq<bool>, t: seq<bool>, q: nat, n: nat)
    requires q + n <= |s|
    ensures ValueAt(s + t, q, n) == ValueAt(s, q, n)
  {
    if n > 0 {
      ValueAtPrefix(s, t, q, n - 1);
    }
  }

  /** One more bit at the end: `out << 1 | bit`. */
  lemma {:induction false} ValueSnoc(bs: seq<bool>, b: bool)
    ensures Value(bs + [b]) == 2 * Value(bs) + (if b then 1 else 0)
  {
    ValueAtPrefix(bs, [b], 0, |bs|);
  }

  /** Writing a number in n bits and reading it back gives the number. */
  lemma {:induction false} ValueOfMsb(v: nat, n: nat)
    requires v < Pow2(n)
    ensures Value(Msb(v, n)) == v
  {
    ValueAtOfMsb(Msb(v, n), 0, v, n);
  }

  /** Reading bits as a number and writing it back in as many bits gives the bits. */
  lemma {:induction false} MsbOfValue(bs: seq<bool>)
    ensures Msb(Value(bs), |bs|) == bs
  {
    MsbOfValueAt(bs, 0, |bs|);
  }

  /** Digit i of the n-bit representation is bit n-1-i of the number. */
  lemma {:induction false} MsbAt(v: nat, n: nat, i: nat)
    requires i < n
    ensures Msb(v, n)[i] == Bit(v, n - 1 - i)
  {
    if i < n - 1 {
      MsbAt(v / 2, n - 1, i);
    }
  }

  /** Appending k zero bits multiplies the value by 2^k. */
  lemma {:induction false} ValueWithZeros(bs: seq<bool>, k: nat)
    ensures Value(bs + Zeros(k)) == Value(bs) * Pow2(k)
  {
    if k == 0 {
      assert bs + Zeros(k) == bs;
    } else {
      ValueWithZeros(bs, k - 1);
      assert bs + Zeros(k) == (bs + Zeros(k - 1)) + [false];
      ValueSnoc(bs + Zeros(k - 1), false);
      var v, q := Value(bs), Pow2(k - 1);
      assert Value(bs + Zeros(k)) == 2 * (v * q);
      assert Pow2(k) == 2 * q;
      DoubleProduct(v, q);
    }
  }

  lemma {:induction false} DoubleProduct(v: nat, q: nat)
    ensures 2 * (v * q) == v * (2 * q)
  {
  }

  /** Bit p of the bit view of a byte sequence is bit 7 - p % 8 of byte p / 8. */
  lemma {:induction false} BitsOfBytesAt(bytes: seq<Byte>, p: nat)
    requires p < 8 * |bytes|
    ensures BitsOfBytes(bytes)[p] == Bit(bytes[p / 8], 7 - p % 8)
    decreases |bytes|
  {
    var n := |bytes| - 1;
    var front := bytes[..n];
    if p < 8 * n {
      BitsOfBytesAt(front, p);
      assert front[p / 8] == bytes[p / 8];
    } else {
      var i := p - 8 * n;
      BytePosition(n, i);
      MsbAt(bytes[n], 8, i);
    }
  }

  /** Bit position 8 * b + k is bit k of byte b. */
  lemma {:induction false} BytePosition(b: nat, k: nat)
    requires k < 8
    ensures (8 * b + k) / 8 == b && (8 * b + k) % 8 == k
  {
  }

  /** Reading 8 bits at byte k of the bit view gives that byte back. */
  lemma {:induction false} ByteBits(bytes: seq<Byte>, k: nat)
    requires k < |bytes|
    ensures 8 * k + 8 <= |BitsOfBytes(bytes)| && ValueAt(BitsOfBytes(bytes), 8 * k, 8) == bytes[k]
  {
    var s := BitsOfBytes(bytes);
    var m := Msb(bytes[k], 8);
    forall i | 0 <= i < 8
      ensures s[8 * k + i] == m[i]
    {
      BytePosition(k, i);
      BitsOfBytesAt(bytes, 8 * k + i);
      MsbAt(bytes[k], 8, i);
    }
    Pow2Byte();
    ValueAtOfMsb(s, 8 * k, bytes[k], 8);
  }

  /** The bit view of a byte sequence extended by one byte. */
  lemma {:induction false} BitsOfBytesAppend(bytes: seq<Byte>, b: Byte)
    ensures BitsOfBytes(bytes + [b]) == BitsOfBytes(bytes) + Msb(b, 8)
  {
    assert (bytes + [b])[..|bytes|] == bytes;
  }


  /**
   * Shifting a bit in below count pending bits: the pending bits grow by
   * that bit, and the eighth completes a byte of the bit view.
   */
  lemma {:induction false} PushBit(bytes: seq<Byte>, buf: nat, count: nat, bit: bool)
    requires count < 8 && buf < Pow2(count)
    ensures var b := 2 * buf + (if bit then 1 else 0);
      b < Pow2(count + 1) && BitsOfBytes(bytes) + Msb(buf, count) + [bit] == BitsOfBytes(bytes) + Msb(b, count + 1)
    ensures var b := 2 * buf + (if bit then 1 else 0);
      count == 7 ==> b < 256 && BitsOfBytes(bytes) + Msb(buf, count) + [bit] == BitsOfBytes(bytes + [b]) + Msb(0, 0)
  {
    var b := 2 * buf + (if bit then 1 else 0);
    MsbSnoc(buf, count, bit);
    assert Pow2(count + 1) == 2 * Pow2(count);
    if count == 7 {
      Pow2Byte();
      BitsOfBytesAppend(bytes, b);
    }
  }

  /** Setting bit k changes bit k and no other bit. */
  lemma {:induction false} SetBitAt(v: nat, k: nat, j: nat)
    ensures Bit(SetBit(v, k), j) == (j == k || Bit(v, j))
  {
    if k == 0 {
      if j > 0 && !Bit(v, 0) {
        assert (v + 1) / 2 == v / 2;
      }
    } else {
      assert SetBit(v, k) / 2 == SetBit(v / 2, k - 1);
      assert SetBit(v, k) % 2 == v % 2;
      if j > 0 {
        SetBitAt(v / 2, k - 1, j - 1);
      }
    }
  }

  /** A number below 2^n has no bit at or above n. */
  lemma {:induction false} BitAboveWidth(v: nat, n: nat, k: nat)
    requires v < Pow2(n) && n <= k
    ensures !Bit(v, k)
  {
    if k > 0 {
      BitAboveWidth(v / 2, if n == 0 then 0 else n - 1, k - 1);
    } else {
      assert v == 0;
    }
  }

  /** Every bit of ~0 below the width is set. */
  lemma {:induction false} AllOnesBit(n: nat, k: nat)
    requires k < n
    ensures Bit(AllOnes(n), k)
  {
    if k > 0 {
      assert AllOnes(n) / 2 == AllOnes(n - 1);
      AllOnesBit(n - 1, k - 1);
    }
  }

  /** Zero has no bit set. */
  lemma {:induction false} ZeroHasNoBit(k: nat)
    ensures !Bit(0, k)
  {
    if k > 0 {
      ZeroHasNoBit(k - 1);
    }
  }

  /** A nonzero number below 2^n has some bit below n set. */
  lemma {:induction false} NonzeroHasBit(v: nat, n: nat) returns (k: nat)
    requires 0 < v < Pow2(n)
    ensures k < n && Bit(v, k)
  {
    if v % 2 == 1 {
      k := 0;
    } else {
      var k' := NonzeroHasBit(v / 2, n - 1);
      k := k' + 1;
    }
  }

  /** Bits n-1, n-2, ... of v, j of them: what `while (mask >>= 1) out << (v & mask)` has written after j steps. */
  function TopBits(v: nat, n: nat, j: nat): (r: seq<bool>)
    requires j <= n
    ensures |r| == j
  {
    if j == 0 then [] else TopBits(v, n, j - 1) + [Bit(v, n - j)]
  }

  lemma {:induction false} TopBitsAt(v: nat, n: nat, j: nat, i: nat)
    requires i < j <= n
    ensures TopBits(v, n, j)[i] == Bit(v, n - 1 - i)
  {
    if i < j - 1 {
      TopBitsAt(v, n, j - 1, i);
    }
  }

  /** Writing bits n-1 down to 0 of v writes the n-bit representation of v. */
  lemma {:induction false} TopBitsAll(v: nat, n: nat)
    ensures TopBits(v, n, n) == Msb(v, n)
  {
    forall i | 0 <= i < n
      ensures TopBits(v, n, n)[i] == Msb(v, n)[i]
    {
      TopBitsAt(v, n, n, i);
      MsbAt(v, n, i);
    }
  }

  /** `v << k` in n + k bits is v in n bits followed by k zero bits. */
  lemma {:induction false} MsbShift(v: nat, n: nat, k: nat)
    requires v < Pow2(n)
    ensures v * Pow2(k) < Pow2(n + k)
    ensures Msb(v * Pow2(k), n + k) == Msb(v, n) + Zeros(k)
  {
    if k == 0 {
      assert Msb(v, n) + Zeros(0) == Msb(v, n);
    } else {
      MsbShift(v, n, k - 1);
      var u := v * Pow2(k - 1);
      DoubleProduct(v, Pow2(k - 1));
      assert v * Pow2(k) == 2 * u;
      assert Msb(2 * u, n + k) == Msb(u, n + k - 1) + [false];
      assert Msb(v, n) + Zeros(k) == (Msb(v, n) + Zeros(k - 1)) + [false];
    }
  }

  /** t occurs in s at position pos. */
  predicate HasAt(s: seq<bool>, pos: nat, t: seq<bool>)
  {
    pos + |t| <= |s| && forall i {:trigger t[i]} :: 0 <= i < |t| ==> s[pos + i] == t[i]
  }

  /** A first bit and the rest: t after b at pos is b at pos and t at pos + 1. */
  lemma {:induction false} HasAtCons(s: seq<bool>, pos: nat, b: bool, t: seq<bool>)
    requires HasAt(s, pos, [b] + t)
    ensures s[pos] == b && HasAt(s, pos + 1, t)
  {
    assert s[pos + 0] == ([b] + t)[0];
    forall i | 0 <= i < |t|
      ensures s[pos + 1 + i] == t[i]
    {
      assert s[pos + (i + 1)] == ([b] + t)[i + 1];
    }
  }

  lemma {:induction false} HasAtConsIntro(s: seq<bool>, pos: nat, b: bool, t: seq<bool>)
    requires pos < |s| && s[pos] == b && HasAt(s, pos + 1, t)
    ensures HasAt(s, pos, [b] + t)
  {
    forall i | 0 <= i < 1 + |t|
      ensures s[pos + i] == ([b] + t)[i]
    {
      if i > 0 {
        assert s[pos + 1 + (i - 1)] == t[i - 1];
      }
    }
  }

  /** Two pieces at pos: a at pos and b right after it. */
  lemma {:induction false} HasAtSplit(s: seq<bool>, pos: nat, a: seq<bool>, b: seq<bool>)
    requires HasAt(s, pos, a + b)
    ensures HasAt(s, pos, a) && HasAt(s, pos + |a|, b)
  {
    forall i | 0 <= i < |a|
      ensures s[pos + i] == a[i]
    {
      assert s[pos + i] == (a + b)[i];
    }
    forall i | 0 <= i < |b|
      ensures s[pos + |a| + i] == b[i]
    {
      assert s[pos + (|a| + i)] == (a + b)[|a| + i];
    }
  }
}
