/**
 * The start-step-stop code for one run length n >= 1: `groups - 1` one bits,
 * a zero bit, then n - 1 - Offset(groups - 1) in exactly 3 * groups bits,
 * most significant first (RunLengthEncoder::flush in vidproc/vidproc.cpp,
 * VideoDecoder::read_repeat_count in src/decoder.cpp, read_count in
 * vidproc/vidunproc.cpp).
 */
module StartStepStop {
  import opened Bits
  import opened Opt

  /** Bits per group (GROUP_SIZE). */
  const GroupSize: nat := 3

  /**
   * The OFFSETS table: Offset(g) is how many run lengths fewer than g groups
   * can code, 0, 8, 72, 584, 4680, 37448 for g = 0..5.
   */
  function Offset(g: nat): nat
    requires g <= 5
  {
    if g == 0 then 0 else if g == 1 then 8 else if g == 2 then 72
    else if g == 3 then 584 else if g == 4 then 4680 else 37448
  }

  /**
   * Longest run the six-entry table can code: the group search of flush reads
   * Offset(groups), so n - 1 must stay below Offset(5).
   */
  const MaxRun: nat := 37448

  /** Group counts the table supports on both sides. */
  const MaxGroups: nat := 5

  /** The flush loop `for (groups = 1; repeat >= OFFSETS[groups]; groups ++)`, from g on. */
  function GroupsFrom(m: nat, g: nat): (r: nat)
    requires 1 <= g <= MaxGroups && Offset(g - 1) <= m < MaxRun
    ensures g <= r <= MaxGroups && Offset(r - 1) <= m < Offset(r)
    decreases MaxGroups - g
  {
    if m >= Offset(g) then GroupsFrom(m, g + 1) else g
  }

  /** The least group count whose range holds m = n - 1. */
  function Groups(m: nat): (g: nat)
    requires m < MaxRun
    ensures 1 <= g <= MaxGroups && Offset(g - 1) <= m < Offset(g)
  {
    GroupsFrom(m, 1)
  }

  /** g groups hold exactly 2^(3g) values: Offset(g) - Offset(g-1) == 8^g. */
  lemma {:induction false} Capacity(g: nat)
    requires 1 <= g <= MaxGroups
    ensures Offset(g) - Offset(g - 1) == Pow2(GroupSize * g)
  {
    assert Pow2(3) == 8;
    assert Pow2(6) == 64;
    assert Pow2(9) == 512;
    assert Pow2(12) == 4096;
    assert Pow2(15) == 32768;
  }

  /**
   * The rest of the code of m = n - 1 once the group count has reached g: a
   * one bit for every further group m needs, then the stop bit and m's offset
   * in its group in 3 * (final group count) bits.
   */
  function CodeFrom(m: nat, g: nat): (r: seq<bool>)
    requires 1 <= g <= MaxGroups && Offset(g - 1) <= m < MaxRun
    decreases MaxGroups - g
  {
    if m >= Offset(g) then [true] + CodeFrom(m, g + 1)
    else [false] + Msb(m - Offset(g - 1), GroupSize * g)
  }

  /** The code flush writes for a run of n equal pixels. */
  function RunCode(n: nat): (r: seq<bool>)
    requires 1 <= n <= MaxRun
  {
    CodeFrom(n - 1, 1)
  }

  /**
   * The reader's side from group count g on: every one bit adds a group; at
   * the zero bit read 3 * groups bits as a number and add Offset(groups - 1)
   * + 1. Gives the run length and the position after the code; None when the
   * code does not fit in s or needs more groups than the table has.
   */
  function ReadRunFrom(s: seq<bool>, pos: nat, g: nat): (r: Option<(nat, nat)>)
    requires g >= 1
    ensures r.Some? ==> g <= MaxGroups && Offset(g - 1) < r.value.0 <= MaxRun
    ensures r.Some? ==> pos < r.value.1 <= |s|
    decreases |s| - pos
  {
    if pos >= |s| || g > MaxGroups then None
    else if s[pos] then ReadRunFrom(s, pos + 1, g + 1)
    else
      var q := pos + 1;
      if q + GroupSize * g > |s| then None
      else
        Capacity(g);
        Some((ValueAt(s, q, GroupSize * g) + Offset(g - 1) + 1, q + GroupSize * g))
  }

  /** A one bit where a group flag is due adds a group. */
  lemma {:induction false} ReadRunMore(s: seq<bool>, p: nat, g: nat)
    requires g >= 1 && p < |s| && s[p] && ReadRunFrom(s, p, g).Some?
    ensures p + 1 < |s| && ReadRunFrom(s, p + 1, g + 1) == ReadRunFrom(s, p, g)
  {
  }

  /** At the zero bit the code ends after 3 * g value bits. */
  lemma {:induction false} ReadRunStop(s: seq<bool>, p: nat, g: nat)
    requires g >= 1 && p < |s| && !s[p] && ReadRunFrom(s, p, g).Some?
    ensures g <= MaxGroups && p + 1 + GroupSize * g <= |s|
    ensures ReadRunFrom(s, p, g) == Some((ValueAt(s, p + 1, GroupSize * g) + Offset(g - 1) + 1, p + 1 + GroupSize * g))
  {
  }

  /** read_repeat_count: one run length code read at pos. */
  function ReadRun(s: seq<bool>, pos: nat): (r: Option<(nat, nat)>)
    ensures r.Some? ==> 1 <= r.value.0 <= MaxRun && pos < r.value.1 <= |s|
  {
    ReadRunFrom(s, pos, 1)
  }

  /** The shape of the code from group g on: more ones, the stop bit, the value bits. */
  lemma {:induction false} CodeFromParts(m: nat, g: nat)
    requires 1 <= g <= MaxGroups && Offset(g - 1) <= m < MaxRun
    ensures var k := GroupsFrom(m, g);
      CodeFrom(m, g) == Ones(k - g) + StopAndValue(m, k)
    decreases MaxGroups - g
  {
    if m >= Offset(g) {
      CodeFromParts(m, g + 1);
      var k := GroupsFrom(m, g);
      OnesConsBefore(k - (g + 1), StopAndValue(m, k));
    } else {
      assert Ones(0) == [];
    }
  }

  /** The stop bit and the value bits of m coded with k groups. */
  function StopAndValue(m: nat, k: nat): seq<bool>
    requires 1 <= k <= MaxGroups && Offset(k - 1) <= m
  {
    [false] + Msb(m - Offset(k - 1), GroupSize * k)
  }

  /**
   * The three parts of a code as flush writes them: groups - 1 one bits, a
   * zero, and v = n - 1 - Offset(groups - 1) in 3 * groups bits.
   */
  lemma {:induction false} CodeParts(n: nat) returns (g: nat, v: nat)
    requires 1 <= n <= MaxRun
    ensures g == Groups(n - 1) && v == n - 1 - Offset(g - 1) && v < Pow2(GroupSize * g)
    ensures RunCode(n) == Ones(g - 1) + [false] + Msb(v, GroupSize * g)
    ensures |RunCode(n)| == 4 * g
  {
    g := Groups(n - 1);
    v := n - 1 - Offset(g - 1);
    Capacity(g);
    CodeFromParts(n - 1, 1);
  }

  /** The reader inverts the code from any group count on. */
  lemma {:induction false} ReadCodeFrom(s: seq<bool>, pos: nat, m: nat, g: nat)
    requires 1 <= g <= MaxGroups && Offset(g - 1) <= m < MaxRun
    requires HasAt(s, pos, CodeFrom(m, g))
    ensures ReadRunFrom(s, pos, g) == Some((m + 1, pos + |CodeFrom(m, g)|))
    decreases MaxGroups - g
  {
    if m >= Offset(g) {
      HasAtCons(s, pos, true, CodeFrom(m, g + 1));
      ReadCodeFrom(s, pos + 1, m, g + 1);
    } else {
      var v := m - Offset(g - 1);
      var w := GroupSize * g;
      HasAtCons(s, pos, false, Msb(v, w));
      Capacity(g);
      ValueAtOfMsb(s, pos + 1, v, w);
    }
  }

  /** The reader inverts flush: a code read back gives its run and ends where the code ends. */
  lemma {:induction false} ReadRunOfCode(s: seq<bool>, pos: nat, n: nat)
    requires 1 <= n <= MaxRun && HasAt(s, pos, RunCode(n))
    ensures ReadRun(s, pos) == Some((n, pos + |RunCode(n)|))
  {
    ReadCodeFrom(s, pos, n - 1, 1);
  }

  /** Whatever the reader accepts from group g on is the code of the run it returns. */
  lemma {:induction false} CodeOfReadFrom(s: seq<bool>, pos: nat, g: nat)
    requires g >= 1 && ReadRunFrom(s, pos, g).Some?
    ensures var (n, next) := ReadRunFrom(s, pos, g).value;
      next == pos + |CodeFrom(n - 1, g)| && HasAt(s, pos, CodeFrom(n - 1, g))
    decreases |s| - pos
  {
    var n := ReadRunFrom(s, pos, g).value.0;
    if s[pos] {
      CodeOfReadFrom(s, pos + 1, g + 1);
      var t := CodeFrom(n - 1, g + 1);
      assert CodeFrom(n - 1, g) == [true] + t;
      HasAtConsIntro(s, pos, true, t);
    } else {
      CodeOfReadStop(s, pos, g);
    }
  }

  /** The last group: a zero bit, then the value bits, are the end of the code. */
  lemma {:induction false} CodeOfReadStop(s: seq<bool>, pos: nat, g: nat)
    requires g >= 1 && ReadRunFrom(s, pos, g).Some? && !s[pos]
    ensures var (n, next) := ReadRunFrom(s, pos, g).value;
      next == pos + |CodeFrom(n - 1, g)| && HasAt(s, pos, CodeFrom(n - 1, g))
  {
    var n := ReadRunFrom(s, pos, g).value.0;
    var q := pos + 1;
    var w := GroupSize * g;
    var v := ValueAt(s, q, w);
    assert n == v + Offset(g - 1) + 1;
    Capacity(g);
    MsbOfValueAt(s, q, w);
    assert CodeFrom(n - 1, g) == [false] + Msb(v, w);
    HasAtConsIntro(s, pos, false, Msb(v, w));
  }

  /** Whatever the reader accepts is exactly the code flush writes for the run it returns. */
  lemma {:induction false} CodeOfReadRun(s: seq<bool>, pos: nat)
    requires ReadRun(s, pos).Some?
    ensures ReadRun(s, pos).value.1 == pos + |RunCode(ReadRun(s, pos).value.0)|
    ensures HasAt(s, pos, RunCode(ReadRun(s, pos).value.0))
  {
    CodeOfReadFrom(s, pos, 1);
  }

  /** Shortest code: runs 1..8 take one group, four bits; 1 is 0000 and 8 is 0111. */
  lemma {:induction false} ShortCodes()
    ensures RunCode(1) == [false, false, false, false]
    ensures RunCode(8) == [false, true, true, true]
  {
    assert Msb(0, 3) == [false, false, false];
    assert Msb(7, 3) == [true, true, true];
  }

  /** Run 9 is the first to take two groups: prefix 10 and six zero bits. */
  lemma {:induction false} FirstTwoGroupCode()
    ensures RunCode(9) == [true, false] + Zeros(6)
  {
    assert Msb(0, 6) == Zeros(6);
  }
}
