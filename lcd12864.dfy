/**
 * The graphics side of the ST7920 128 x 64 driver (src/lcd12864.cpp): the
 * basic and extended command sets, graphics mode on and off, the cursor
 * address of set_cursor, and the sync of `draw_buf`, the picture the next
 * update shows, to the screen through `display_buf`, the driver's record of
 * what the screen shows. Every command or data byte put on the bus is a
 * record appended to a log.
 */
module Lcd {
  import opened Bits
  import opened Opt
  import opened LcdLayout

  /**
   * One bus write: `write_cmd(c)` with a command byte c, or `write_data(b)`
   * with a data byte b (data bytes are bit-vectors, being halves of words).
   */
  datatype Write = Cmd(c: Byte) | Data(b: bv8)

  /** NORMAL_CMD_4BIT / NORMAL_CMD_8BIT: back to the basic command set. */
  function BasicSet(fourWire: bool): Byte
  {
    if fourWire then 0x20 else 0x30
  }

  /** EXT_CMD_4BIT / EXT_CMD_8BIT: the extended command set, graphics off. */
  function ExtendedSet(fourWire: bool): Byte
  {
    if fourWire then 0x24 else 0x34
  }

  /** EXT_GRAPHICS_ON_4BIT / EXT_GRAPHICS_ON_8BIT. */
  function GraphicsOn(fourWire: bool): Byte
  {
    if fourWire then 0x26 else 0x36
  }

  /** EXT_GRAPHICS_OFF_4BIT / EXT_GRAPHICS_OFF_8BIT. */
  function GraphicsOff(fourWire: bool): Byte
  {
    if fourWire then 0x24 else 0x34
  }

  /** The graphics address command `0x80 | v` for a row or word column v, which is 0x80 + v as v < 0x80. */
  function Addr(v: nat): (r: Byte)
    requires v < 0x80
    ensures r >= 0x80 && Unaddr(r) == v
  {
    0x80 + v
  }

  /** The address an address command carries: its low seven bits. */
  function Unaddr(c: Byte): nat
  {
    c % 0x80
  }

  /** The high byte of a word, `w >> 8`, written first. */
  function Hi(w: bv16): bv8
  {
    (w >> 8) as bv8
  }

  /** The low byte of a word, `w & 0x00FF`. */
  function Lo(w: bv16): bv8
  {
    (w & 0xFF) as bv8
  }

  /** The text-row start address set_cursor adds for rows 0..3. */
  function RowBase(row: bv8): bv8
    requires row < 4
  {
    if row == 0 then 0x80 else if row == 1 then 0x90 else if row == 2 then 0x88 else 0x98
  }

  /**
   * The command byte of set_cursor: the row's start address added to col in
   * uint8_t arithmetic (nothing for rows past 3), then bit 7 set and bit 6
   * cleared. It is always a set-address command (top bits 10); for rows
   * 0..3 and columns 0..7 it is the row's start plus the column; past row 3
   * it is col with its top bits forced to 10.
   */
  function CursorCommand(row: bv8, col: bv8): (r: bv8)
    ensures r & 0xC0 == 0x80
    ensures row < 4 && col < 8 ==> r == RowBase(row) + col
    ensures row >= 4 ==> r == 0x80 | (col & 0x3F)
  {
    var c := if row == 0 then col + 0x80 else if row == 1 then col + 0x90
             else if row == 2 then col + 0x88 else if row == 3 then col + 0x98 else col;
    (c | 0x80) & 0xBF
  }

  // ---------------------------------------------------------------------------
  // What a sync and a clear put on the bus

  /** A word written at an address: the row and column commands, then the high and low byte. */
  function CellWrites(row: nat, col: nat, v: bv16): seq<Write>
    requires row < BufRows && col < BufCols
  {
    [Cmd(Addr(row)), Cmd(Addr(col)), Data(Hi(v)), Data(Lo(v))]
  }

  /**
   * What update_drawing writes for word col of row, the row's words being d
   * on the screen and w in the buffer: nothing for an equal word; the word's
   * two bytes for a differing one, after the address pair unless the word
   * before it also differed (`run` is still set then).
   */
  function CellLog(row: nat, d: seq<bv16>, w: seq<bv16>, col: nat): seq<Write>
    requires row < BufRows && |d| == |w| == BufCols && col < BufCols
  {
    if d[col] == w[col] then []
    else if col > 0 && d[col - 1] != w[col - 1] then [Data(Hi(w[col])), Data(Lo(w[col]))]
    else CellWrites(row, col, w[col])
  }

  /** What update_drawing writes for the first n words of row. */
  function RowLog(row: nat, d: seq<bv16>, w: seq<bv16>, n: nat): seq<Write>
    requires row < BufRows && |d| == |w| == BufCols && n <= BufCols
  {
    if n == 0 then [] else RowLog(row, d, w, n - 1) + CellLog(row, d, w, n - 1)
  }

  /** What update_drawing writes for the first n rows. */
  function SyncRows(d: seq<seq<bv16>>, w: seq<seq<bv16>>, n: nat): seq<Write>
    requires IsBuffer(d) && IsBuffer(w) && n <= BufRows
  {
    if n == 0 then [] else SyncRows(d, w, n - 1) + RowLog(n - 1, d[n - 1], w[n - 1], BufCols)
  }

  /** The log `base` followed by what clear_drawing writes for its first n rows. */
  function ClearLog(base: seq<Write>, n: nat): seq<Write>
    requires n <= BufRows
  {
    if n == 0 then base else ClearRowLog(ClearLog(base, n - 1), n - 1, BufCols)
  }

  /** The log `base` followed by what clear_drawing writes for the first n columns of one row: a zero word each. */
  function ClearRowLog(base: seq<Write>, row: nat, n: nat): seq<Write>
    requires row < BufRows && n <= BufCols
  {
    if n == 0 then base else ClearRowLog(base, row, n - 1) + CellWrites(row, n - 1, 0)
  }

  /** The data bytes of a log, in order. */
  function Datas(log: seq<Write>): seq<bv8>
  {
    if |log| == 0 then [] else (if log[0].Data? then [log[0].b] else []) + Datas(log[1..])
  }

  lemma {:induction false} DatasAppend(a: seq<Write>, b: seq<Write>)
    ensures Datas(a + b) == Datas(a) + Datas(b)
  {
    if a != [] {
      assert (a + b)[1..] == a[1..] + b;
      DatasAppend(a[1..], b);
    } else {
      assert a + b == b;
    }
  }

  /** The words of the first n columns that differ between d and w, in column order. */
  function Changed(d: seq<bv16>, w: seq<bv16>, n: nat): seq<bv16>
    requires |d| == |w| && n <= |d|
  {
    if n == 0 then [] else Changed(d, w, n - 1) + (if d[n - 1] != w[n - 1] then [w[n - 1]] else [])
  }

  /** Words as bytes, high byte first. */
  function WordBytes(ws: seq<bv16>): seq<bv8>
  {
    if |ws| == 0 then [] else WordBytes(ws[..|ws| - 1]) + [Hi(ws[|ws| - 1]), Lo(ws[|ws| - 1])]
  }

  /**
   * The data update_drawing writes for a row is exactly the differing words,
   * two bytes each, high byte first: an equal word costs no data write.
   */
  lemma {:induction false} RowData(row: nat, d: seq<bv16>, w: seq<bv16>, n: nat)
    requires row < BufRows && |d| == |w| == BufCols && n <= BufCols
    ensures Datas(RowLog(row, d, w, n)) == WordBytes(Changed(d, w, n))
  {
    if n > 0 {
      var pre, cell := RowLog(row, d, w, n - 1), CellLog(row, d, w, n - 1);
      RowData(row, d, w, n - 1);
      CellData(row, d, w, n - 1);
      ChangedBytes(d, w, n);
      DatasAppend(pre, cell);
    }
  }

  /** One more column adds the column's word to the changed words' bytes when it differs. */
  lemma {:induction false} ChangedBytes(d: seq<bv16>, w: seq<bv16>, n: nat)
    requires |d| == |w| && 0 < n <= |d|
    ensures WordBytes(Changed(d, w, n))
      == WordBytes(Changed(d, w, n - 1)) + if d[n - 1] == w[n - 1] then [] else [Hi(w[n - 1]), Lo(w[n - 1])]
  {
    var c := Changed(d, w, n - 1);
    if d[n - 1] != w[n - 1] {
      var c' := c + [w[n - 1]];
      assert c'[..|c'| - 1] == c;
    } else {
      assert Changed(d, w, n) == c;
    }
  }

  /** A word's data bytes: none when it is already on the screen, else its two bytes. */
  lemma {:induction false} CellData(row: nat, d: seq<bv16>, w: seq<bv16>, col: nat)
    requires row < BufRows && |d| == |w| == BufCols && col < BufCols
    ensures Datas(CellLog(row, d, w, col)) == if d[col] == w[col] then [] else [Hi(w[col]), Lo(w[col])]
  {
    if d[col] != w[col] {
      var hi, lo := Data(Hi(w[col])), Data(Lo(w[col]));
      SingleData(hi);
      SingleData(lo);
      DatasAppend([hi], [lo]);
      assert [hi] + [lo] == [hi, lo];
      if !(col > 0 && d[col - 1] != w[col - 1]) {
        var ra, ca := Cmd(Addr(row)), Cmd(Addr(col));
        SingleData(ra);
        SingleData(ca);
        DatasAppend([ra], [ca]);
        DatasAppend([ra] + [ca], [hi, lo]);
        assert CellWrites(row, col, w[col]) == [ra] + [ca] + [hi, lo];
      }
    }
  }

  lemma {:induction false} SingleData(x: Write)
    ensures Datas([x]) == if x.Data? then [x.b] else []
  {
    assert [x][1..] == [];
  }

  /** A row already on the screen writes nothing. */
  lemma {:induction false} RowSynced(row: nat, w: seq<bv16>, n: nat)
    requires row < BufRows && |w| == BufCols && n <= BufCols
    ensures RowLog(row, w, w, n) == []
  {
    if n > 0 {
      RowSynced(row, w, n - 1);
    }
  }

  /** A buffer already on the screen writes nothing: a second update right after a first is silent. */
  lemma {:induction false} Synced(w: seq<seq<bv16>>, n: nat)
    requires IsBuffer(w) && n <= BufRows
    ensures SyncRows(w, w, n) == []
  {
    if n > 0 {
      Synced(w, n - 1);
      RowSynced(n - 1, w[n - 1], BufCols);
    }
  }

  // ---------------------------------------------------------------------------
  // The controller's graphic RAM

  /**
   * The controller's graphic RAM as the driver drives it in graphics mode:
   * an address command (bit 7 set) gives the vertical address, the buffer
   * row, and the one after it the horizontal address, the word column; each
   * two data bytes write one word there, high byte first, and move to the
   * next column. Other commands leave the RAM and the addresses alone.
   */
  datatype Gdram = Gdram(ram: seq<seq<bv16>>, row: nat, col: nat, colNext: bool, hi: Option<bv8>)

  /** The RAM with word (r, c) set to v; addresses outside it write nothing. */
  function Put(ram: seq<seq<bv16>>, r: nat, c: nat, v: bv16): (ram': seq<seq<bv16>>)
    ensures |ram'| == |ram| && forall i :: 0 <= i < |ram| ==> |ram'[i]| == |ram[i]|
  {
    if r < |ram| && c < |ram[r]| then ram[r := ram[r][c := v]] else ram
  }

  function Step(g: Gdram, w: Write): Gdram
  {
    match w
    case Cmd(c) =>
      if c < 0x80 then g
      else if !g.colNext then g.(row := Unaddr(c), colNext := true)
      else g.(col := Unaddr(c), colNext := false, hi := None)
    case Data(b) =>
      if g.hi.None? then g.(hi := Some(b))
      else g.(ram := Put(g.ram, g.row, g.col, ((g.hi.value as bv16) << 8) | (b as bv16)), col := g.col + 1, hi := None)
  }

  /** The controller after a log of writes. */
  function Replay(g: Gdram, log: seq<Write>): Gdram
    decreases |log|
  {
    if |log| == 0 then g else Replay(Step(g, log[0]), log[1..])
  }

  lemma {:induction false} ReplayAppend(g: Gdram, a: seq<Write>, b: seq<Write>)
    ensures Replay(g, a + b) == Replay(Replay(g, a), b)
    decreases |a|
  {
    if a != [] {
      assert (a + b)[1..] == a[1..] + b;
      ReplayAppend(Step(g, a[0]), a[1..], b);
    } else {
      assert a + b == b;
    }
  }

  /** Between writes: no address half given, no byte pending, a 32 x 16 RAM. */
  predicate Ready(g: Gdram)
  {
    !g.colNext && g.hi.None? && IsBuffer(g.ram)
  }

  /** The high and low byte give the word back. */
  lemma {:induction false} WordOfBytes(v: bv16)
    ensures ((Hi(v) as bv16) << 8) | (Lo(v) as bv16) == v
  {
  }

  /** Playing one write, then the rest. */
  lemma {:induction false} ReplayCons(g: Gdram, w: Write, rest: seq<Write>)
    ensures Replay(g, [w] + rest) == Replay(Step(g, w), rest)
  {
    assert ([w] + rest)[1..] == rest;
  }

  lemma {:induction false} ReplayOne(g: Gdram, w: Write)
    ensures Replay(g, [w]) == Step(g, w)
  {
    assert [w][1..] == [];
  }

  /** Two data bytes at the current address write the word there and move to the next column. */
  lemma {:induction false} DataReplay(g: Gdram, v: bv16)
    requires Ready(g) && g.row < BufRows && g.col < BufCols
    ensures var g' := Replay(g, [Data(Hi(v)), Data(Lo(v))]);
      Ready(g') && g'.ram == g.ram[g.row := g.ram[g.row][g.col := v]] && g'.row == g.row && g'.col == g.col + 1
  {
    assert [Data(Hi(v)), Data(Lo(v))] == [Data(Hi(v))] + [Data(Lo(v))];
    ReplayCons(g, Data(Hi(v)), [Data(Lo(v))]);
    var g1 := g.(hi := Some(Hi(v)));
    assert Step(g, Data(Hi(v))) == g1;
    ReplayOne(g1, Data(Lo(v)));
    LowByteStep(g1, v);
  }

  /** The low byte after the high byte of v writes v at the current address. */
  lemma {:induction false} LowByteStep(g: Gdram, v: bv16)
    requires g.hi == Some(Hi(v)) && IsBuffer(g.ram) && g.row < BufRows && g.col < BufCols
    ensures Step(g, Data(Lo(v))) == g.(ram := g.ram[g.row := g.ram[g.row][g.col := v]], col := g.col + 1, hi := None)
  {
    WordOfBytes(v);
  }

  /** An address pair then a word writes the word at that address. */
  lemma {:induction false} CellWritesReplay(g: Gdram, row: nat, col: nat, v: bv16)
    requires Ready(g) && row < BufRows && col < BufCols
    ensures var g' := Replay(g, CellWrites(row, col, v));
      Ready(g') && g'.ram == g.ram[row := g.ram[row][col := v]] && g'.row == row && g'.col == col + 1
  {
    var data := [Data(Hi(v)), Data(Lo(v))];
    assert CellWrites(row, col, v) == [Cmd(Addr(row))] + ([Cmd(Addr(col))] + data);
    ReplayCons(g, Cmd(Addr(row)), [Cmd(Addr(col))] + data);
    var g1 := Step(g, Cmd(Addr(row)));
    ReplayCons(g1, Cmd(Addr(col)), data);
    var g2 := Step(g1, Cmd(Addr(col)));
    assert g2 == g.(row := row, col := col);
    DataReplay(g2, v);
  }

  /**
   * One word of update_drawing on the controller: the word becomes w[col],
   * and after a differing word the address is the next column of the row,
   * which is what lets the next differing word skip its address pair.
   */
  lemma {:induction false} CellReplay(g: Gdram, row: nat, d: seq<bv16>, w: seq<bv16>, col: nat)
    requires Ready(g) && row < BufRows && |d| == |w| == BufCols && col < BufCols && g.ram[row][col] == d[col]
    requires col > 0 && d[col - 1] != w[col - 1] ==> g.row == row && g.col == col
    ensures var g' := Replay(g, CellLog(row, d, w, col));
      Ready(g') && g'.ram == g.ram[row := g.ram[row][col := w[col]]]
      && (d[col] != w[col] ==> g'.row == row && g'.col == col + 1)
  {
    if d[col] == w[col] {
      assert g.ram[row][col := w[col]] == g.ram[row];
      assert g.ram[row := g.ram[row]] == g.ram;
    } else if col > 0 && d[col - 1] != w[col - 1] {
      DataReplay(g, w[col]);
    } else {
      CellWritesReplay(g, row, col, w[col]);
    }
  }

  /** ram' is ram with the first n words of row taken from w. */
  ghost predicate RowSet(ram': seq<seq<bv16>>, ram: seq<seq<bv16>>, row: nat, w: seq<bv16>, n: nat)
    requires IsBuffer(ram) && |w| == BufCols
  {
    IsBuffer(ram') && forall i, j {:trigger ram'[i][j]} :: 0 <= i < BufRows && 0 <= j < BufCols ==>
      ram'[i][j] == if i == row && j < n then w[j] else ram[i][j]
  }

  /** Writing word n of row from w extends the words taken from w by one. */
  lemma {:induction false} RowSetStep(ram0: seq<seq<bv16>>, ram1: seq<seq<bv16>>, row: nat, w: seq<bv16>, n: nat)
    requires IsBuffer(ram0) && |w| == BufCols && row < BufRows && n < BufCols && RowSet(ram1, ram0, row, w, n)
    ensures RowSet(ram1[row := ram1[row][n := w[n]]], ram0, row, w, n + 1)
  {
    var line := ram1[row][n := w[n]];
    var r2 := ram1[row := line];
    assert IsBuffer(r2);
    forall i, j | 0 <= i < BufRows && 0 <= j < BufCols
      ensures r2[i][j] == if i == row && j < n + 1 then w[j] else ram0[i][j]
    {
      if i == row {
        assert r2[i] == line;
        if j != n {
          assert line[j] == ram1[row][j];
        }
      } else {
        assert r2[i] == ram1[i];
      }
    }
  }

  /** The first n words of a row on the controller: they become w's, the rest stay d's. */
  lemma {:induction false} RowReplay(g: Gdram, row: nat, d: seq<bv16>, w: seq<bv16>, n: nat)
    requires Ready(g) && row < BufRows && |d| == |w| == BufCols && n <= BufCols && g.ram[row] == d
    ensures var g' := Replay(g, RowLog(row, d, w, n));
      Ready(g') && RowSet(g'.ram, g.ram, row, w, n)
      && (n > 0 && d[n - 1] != w[n - 1] ==> g'.row == row && g'.col == n)
  {
    if n > 0 {
      RowReplay(g, row, d, w, n - 1);
      ReplayAppend(g, RowLog(row, d, w, n - 1), CellLog(row, d, w, n - 1));
      var g1 := Replay(g, RowLog(row, d, w, n - 1));
      CellReplay(g1, row, d, w, n - 1);
      RowSetStep(g.ram, g1.ram, row, w, n - 1);
    }
  }

  /** ram' holds the first n rows of w and the other rows of d. */
  ghost predicate RowsSet(ram': seq<seq<bv16>>, d: seq<seq<bv16>>, w: seq<seq<bv16>>, n: nat)
    requires IsBuffer(d) && IsBuffer(w)
  {
    IsBuffer(ram') && forall i, j {:trigger ram'[i][j]} :: 0 <= i < BufRows && 0 <= j < BufCols ==>
      ram'[i][j] == if i < n then w[i][j] else d[i][j]
  }

  /** Row n of a RAM holding the first n rows of w is still d's. */
  lemma {:induction false} RowsSetRow(ram: seq<seq<bv16>>, d: seq<seq<bv16>>, w: seq<seq<bv16>>, n: nat)
    requires IsBuffer(d) && IsBuffer(w) && n < BufRows && RowsSet(ram, d, w, n)
    ensures ram[n] == d[n]
  {
    var r := ram[n];
    assert forall j :: 0 <= j < BufCols ==> r[j] == d[n][j];
  }

  /** All of row n taken from w extends the rows taken from w by one. */
  lemma {:induction false} RowsSetStep(ram1: seq<seq<bv16>>, ram2: seq<seq<bv16>>, d: seq<seq<bv16>>, w: seq<seq<bv16>>, n: nat)
    requires IsBuffer(d) && IsBuffer(w) && n < BufRows && RowsSet(ram1, d, w, n)
    requires RowSet(ram2, ram1, n, w[n], BufCols)
    ensures RowsSet(ram2, d, w, n + 1)
  {
    forall i, j | 0 <= i < BufRows && 0 <= j < BufCols
      ensures ram2[i][j] == if i < n + 1 then w[i][j] else d[i][j]
    {
      assert ram2[i][j] == if i == n then w[n][j] else ram1[i][j];
    }
  }

  /** Two 32 x 16 buffers with the same words are equal. */
  lemma {:induction false} BufferEq(a: seq<seq<bv16>>, b: seq<seq<bv16>>)
    requires IsBuffer(a) && IsBuffer(b)
    requires forall i, j :: 0 <= i < BufRows && 0 <= j < BufCols ==> a[i][j] == b[i][j]
    ensures a == b
  {
    forall i | 0 <= i < BufRows
      ensures a[i] == b[i]
    {
    }
  }

  /** The first n rows of update_drawing's writes on the controller: those rows become w's. */
  lemma {:induction false} SyncRowsReplay(g: Gdram, d: seq<seq<bv16>>, w: seq<seq<bv16>>, n: nat)
    requires Ready(g) && g.ram == d && IsBuffer(w) && n <= BufRows
    ensures var g' := Replay(g, SyncRows(d, w, n));
      Ready(g') && RowsSet(g'.ram, d, w, n)
  {
    if n > 0 {
      SyncRowsReplay(g, d, w, n - 1);
      ReplayAppend(g, SyncRows(d, w, n - 1), RowLog(n - 1, d[n - 1], w[n - 1], BufCols));
      var g1 := Replay(g, SyncRows(d, w, n - 1));
      RowsSetRow(g1.ram, d, w, n - 1);
      RowReplay(g1, n - 1, d[n - 1], w[n - 1], BufCols);
      RowsSetStep(g1.ram, Replay(g1, RowLog(n - 1, d[n - 1], w[n - 1], BufCols)).ram, d, w, n - 1);
    } else {
      assert RowsSet(g.ram, d, w, 0);
    }
  }

  /**
   * update_drawing's writes, played on a controller whose RAM holds what
   * display_buf records, leave it holding draw_buf: a run of differing
   * words needs its address only once.
   */
  lemma {:induction false} SyncReplay(g: Gdram, d: seq<seq<bv16>>, w: seq<seq<bv16>>)
    requires Ready(g) && g.ram == d && IsBuffer(w)
    ensures Replay(g, SyncRows(d, w, BufRows)).ram == w
  {
    SyncRowsReplay(g, d, w, BufRows);
    var r := Replay(g, SyncRows(d, w, BufRows)).ram;
    assert forall i, j :: 0 <= i < BufRows && 0 <= j < BufCols ==> r[i][j] == w[i][j];
    BufferEq(r, w);
  }

  /** A 32 x 16 buffer whose every word is zero. */
  ghost predicate Blank(ram: seq<seq<bv16>>)
  {
    IsBuffer(ram) && forall i, j :: 0 <= i < BufRows && 0 <= j < BufCols ==> ram[i][j] == 0
  }

  /** ram' is ram with rows before `row`, and the first n words of row `row`, set to zero. */
  ghost predicate ClearedTo(ram': seq<seq<bv16>>, ram: seq<seq<bv16>>, row: nat, n: nat)
    requires IsBuffer(ram)
  {
    IsBuffer(ram') && forall i, j {:trigger ram'[i][j]} :: 0 <= i < BufRows && 0 <= j < BufCols ==>
      ram'[i][j] == if i < row || (i == row && j < n) then 0 else ram[i][j]
  }

  /** Zeroing word n of row `row` extends the zeroed words by one. */
  lemma {:induction false} ClearStep(ram0: seq<seq<bv16>>, ram1: seq<seq<bv16>>, row: nat, n: nat)
    requires IsBuffer(ram0) && row < BufRows && n < BufCols && ClearedTo(ram1, ram0, row, n)
    ensures ClearedTo(ram1[row := ram1[row][n := 0]], ram0, row, n + 1)
  {
    var line := ram1[row][n := 0];
    var r2 := ram1[row := line];
    assert IsBuffer(r2);
    forall i, j | 0 <= i < BufRows && 0 <= j < BufCols
      ensures r2[i][j] == if i < row || (i == row && j < n + 1) then 0 else ram0[i][j]
    {
      if i == row {
        assert r2[i] == line;
        if j != n {
          assert line[j] == ram1[row][j];
        }
      } else {
        assert r2[i] == ram1[i];
      }
    }
  }

  /** A row zeroed to its end is the next row zeroed to its start. */
  lemma {:induction false} ClearNextRow(ram0: seq<seq<bv16>>, ram1: seq<seq<bv16>>, row: nat)
    requires IsBuffer(ram0) && ClearedTo(ram1, ram0, row, BufCols)
    ensures ClearedTo(ram1, ram0, row + 1, 0)
  {
    forall i, j | 0 <= i < BufRows && 0 <= j < BufCols
      ensures ram1[i][j] == if i < row + 1 then 0 else ram0[i][j]
    {
      assert ram1[i][j] == if i < row || (i == row && j < BufCols) then 0 else ram0[i][j];
    }
  }

  /** One row of clear_drawing's writes, played on the controller, zeroes that row's words in order. */
  lemma {:induction false} ClearRowReplay(g: Gdram, ram0: seq<seq<bv16>>, base: seq<Write>, row: nat, n: nat)
    requires IsBuffer(ram0) && row < BufRows && n <= BufCols
    requires Ready(Replay(g, base)) && ClearedTo(Replay(g, base).ram, ram0, row, 0)
    ensures var g' := Replay(g, ClearRowLog(base, row, n));
      Ready(g') && ClearedTo(g'.ram, ram0, row, n)
  {
    if n > 0 {
      ClearRowReplay(g, ram0, base, row, n - 1);
      ReplayAppend(g, ClearRowLog(base, row, n - 1), CellWrites(row, n - 1, 0));
      var g1 := Replay(g, ClearRowLog(base, row, n - 1));
      CellWritesReplay(g1, row, n - 1, 0);
      ClearStep(ram0, g1.ram, row, n - 1);
    }
  }

  /** clear_drawing's first n rows, played on the controller after `base`: those rows are zero, the rest unchanged. */
  lemma {:induction false} ClearReplay(g: Gdram, base: seq<Write>, n: nat)
    requires Ready(Replay(g, base)) && n <= BufRows
    ensures var g' := Replay(g, ClearLog(base, n));
      Ready(g') && ClearedTo(g'.ram, Replay(g, base).ram, n, 0)
  {
    var ram0 := Replay(g, base).ram;
    if n > 0 {
      ClearReplay(g, base, n - 1);
      var prefix := ClearLog(base, n - 1);
      var g1 := Replay(g, prefix);
      assert Ready(g1) && ClearedTo(g1.ram, ram0, n - 1, 0);
      ClearRowReplay(g, ram0, prefix, n - 1, BufCols);
      ClearNextRow(ram0, Replay(g, ClearRowLog(prefix, n - 1, BufCols)).ram, n - 1);
    } else {
      assert ClearedTo(ram0, ram0, 0, 0);
    }
  }

  /** clear_drawing's writes leave the controller's RAM all zero, whatever it held after `base`. */
  lemma {:induction false} ClearShowsBlank(g: Gdram, base: seq<Write>)
    requires Ready(Replay(g, base))
    ensures Blank(Replay(g, ClearLog(base, BufRows)).ram)
  {
    ClearReplay(g, base, BufRows);
    ClearedAll(Replay(g, ClearLog(base, BufRows)).ram, Replay(g, base).ram);
  }

  /** A RAM zeroed through its last row is blank. */
  lemma {:induction false} ClearedAll(ram': seq<seq<bv16>>, ram: seq<seq<bv16>>)
    requires IsBuffer(ram) && ClearedTo(ram', ram, BufRows, 0)
    ensures Blank(ram')
  {
    forall i, j | 0 <= i < BufRows && 0 <= j < BufCols
      ensures ram'[i][j] == 0
    {
    }
  }

  // ---------------------------------------------------------------------------
  // The driver

  /** A buffer whose every word is zero reads as the blank buffer. */
  lemma {:induction false} ZeroGrid(a: array2<bv16>)
    requires a.Length0 == BufRows && a.Length1 == BufCols
    requires forall i, j :: 0 <= i < BufRows && 0 <= j < BufCols ==> a[i, j] == 0
    ensures Blank(Grid(a))
  {
  }

  /** Appending a log in two pieces is appending it whole. */
  lemma {:induction false} AppendAssoc(a: seq<Write>, b: seq<Write>, c: seq<Write>)
    ensures a + b + c == a + (b + c)
  {
  }

  /** A zero word goes out as two zero data bytes. */
  lemma {:induction false} ZeroCell(row: nat, col: nat)
    requires row < BufRows && col < BufCols
    ensures CellWrites(row, col, 0) == [Cmd(Addr(row)), Cmd(Addr(col)), Data(0x00), Data(0x00)]
  {
    assert Hi(0) == 0x00 && Lo(0) == 0x00;
  }

  /**
   * LCD12864: the interface width, the command-set and graphics flags, the
   * two 32 x 16 word buffers, and the writes put on the bus so far.
   */
  class Lcd12864 {
    /** FOUR_WIRE_INTERFACE: which of the 4-bit and 8-bit command variants is sent. */
    const fourWire: bool
    var extended: bool
    var drawing: bool
    /** `draw_buf`: the picture the next update_drawing shows. */
    const drawBuf: array2<bv16>
    /** `display_buf`: what the screen shows, as far as the driver knows. */
    const displayBuf: array2<bv16>
    var log: seq<Write>

    ghost predicate Valid()
      reads this
    {
      drawBuf.Length0 == BufRows && drawBuf.Length1 == BufCols
      && displayBuf.Length0 == BufRows && displayBuf.Length1 == BufCols
      && drawBuf != displayBuf
    }

    /** Both buffers start all zero, in the basic command set with graphics off. */
    constructor(fourWire: bool)
      ensures Valid() && this.fourWire == fourWire && !extended && !drawing && log == []
      ensures fresh(drawBuf) && fresh(displayBuf)
      ensures Blank(Grid(drawBuf)) && Blank(Grid(displayBuf))
    {
      this.fourWire := fourWire;
      extended := false;
      drawing := false;
      drawBuf := new bv16[BufRows, BufCols]((r, c) => 0);
      displayBuf := new bv16[BufRows, BufCols]((r, c) => 0);
      log := [];
    }

    /** write_cmd, as a record on the bus. */
    method WriteCmd(c: Byte)
      modifies this
      ensures log == old(log) + [Cmd(c)] && extended == old(extended) && drawing == old(drawing)
    {
      log := log + [Cmd(c)];
    }

    /** write_data, as a record on the bus. */
    method WriteData(b: bv8)
      modifies this
      ensures log == old(log) + [Data(b)] && extended == old(extended) && drawing == old(drawing)
    {
      log := log + [Data(b)];
    }

    /** use_extended: switch to the extended command set unless already there. */
    method UseExtended()
      modifies this
      ensures extended && drawing == old(drawing)
      ensures log == old(log) + if old(extended) then [] else [Cmd(ExtendedSet(fourWire))]
    {
      if extended {
        return;
      }
      WriteCmd(ExtendedSet(fourWire));
      extended := true;
    }

    /** use_basic: switch back to the basic command set unless already there. */
    method UseBasic()
      modifies this
      ensures !extended && drawing == old(drawing)
      ensures log == old(log) + if old(extended) then [Cmd(BasicSet(fourWire))] else []
    {
      if !extended {
        return;
      }
      WriteCmd(BasicSet(fourWire));
      extended := false;
    }

    /** start_draw: the extended set if needed, then graphics on. */
    method StartDraw()
      modifies this
      ensures extended && drawing
      ensures log == old(log) + (if old(extended) then [] else [Cmd(ExtendedSet(fourWire))]) + [Cmd(GraphicsOn(fourWire))]
    {
      if !extended {
        UseExtended();
      }
      WriteCmd(GraphicsOn(fourWire));
      drawing := true;
    }

    /** end_draw: graphics off; the command set flag is left as it was. */
    method EndDraw()
      modifies this
      ensures !drawing && extended == old(extended)
      ensures log == old(log) + [Cmd(GraphicsOff(fourWire))]
    {
      WriteCmd(GraphicsOff(fourWire));
      drawing := false;
    }

    /**
     * set_cursor: the address command of CursorCommand, sent in the basic
     * set; from the extended set the driver switches to basic and back
     * around it, so the command-set flag is the same afterwards.
     */
    method SetCursor(row: bv8, col: bv8)
      modifies this
      ensures extended == old(extended) && drawing == old(drawing)
      ensures log == old(log) + if old(extended)
        then [Cmd(BasicSet(fourWire)), Cmd(CursorCommand(row, col) as int), Cmd(ExtendedSet(fourWire))]
        else [Cmd(CursorCommand(row, col) as int)]
    {
      if extended {
        UseBasic();
        WriteCmd(CursorCommand(row, col) as int);
        UseExtended();
      } else {
        WriteCmd(CursorCommand(row, col) as int);
      }
    }

    /**
     * clear_drawing: when drawing, a zero word to every address, row by
     * row, then both buffers zeroed; otherwise nothing.
     */
    method ClearDrawing()
      requires Valid()
      modifies this, drawBuf, displayBuf
      ensures Valid() && extended == old(extended) && drawing == old(drawing)
      ensures !drawing ==> log == old(log) && unchanged(drawBuf) && unchanged(displayBuf)
      ensures drawing ==> (log == ClearLog(old(log), BufRows) &&
                           Blank(Grid(drawBuf)) && Blank(Grid(displayBuf)))
    {
      if !drawing {
        return;
      }
      SendClear();
      ZeroBuffers();
    }

    /** clear_drawing's bus traffic: every row of the buffers, top to bottom. */
    method SendClear()
      modifies this
      ensures extended == old(extended) && drawing == old(drawing)
      ensures log == ClearLog(old(log), BufRows)
    {
      var row := 0;
      while row < BufRows
        invariant row <= BufRows && extended == old(extended) && drawing == old(drawing)
        invariant log == ClearLog(old(log), row)
      {
        ClearRow(row);
        row := row + 1;
      }
    }

    /** The two memsets at the end of clear_drawing. */
    method ZeroBuffers()
      requires Valid()
      modifies drawBuf, displayBuf
      ensures Blank(Grid(drawBuf)) && Blank(Grid(displayBuf))
    {
      forall r, c | 0 <= r < BufRows && 0 <= c < BufCols {
        displayBuf[r, c] := 0;
      }
      forall r, c | 0 <= r < BufRows && 0 <= c < BufCols {
        drawBuf[r, c] := 0;
      }
      ZeroGrid(drawBuf);
      ZeroGrid(displayBuf);
    }

    /** One row of clear_drawing's writes: a zero word at each of its columns, left to right. */
    method ClearRow(row: nat)
      requires row < BufRows
      modifies this
      ensures extended == old(extended) && drawing == old(drawing)
      ensures log == ClearRowLog(old(log), row, BufCols)
    {
      var col := 0;
      while col < BufCols
        invariant col <= BufCols && extended == old(extended) && drawing == old(drawing)
        invariant log == ClearRowLog(old(log), row, col)
      {
        ClearCell(row, col);
        col := col + 1;
      }
    }

    /** The four writes that zero the word at (row, col). */
    method ClearCell(row: nat, col: nat)
      requires row < BufRows && col < BufCols
      modifies this
      ensures extended == old(extended) && drawing == old(drawing)
      ensures log == old(log) + CellWrites(row, col, 0)
    {
      ZeroCell(row, col);
      WriteCmd(Addr(row));
      WriteCmd(Addr(col));
      WriteData(0x00);
      WriteData(0x00);
    }

    /**
     * update_drawing: when drawing, every word of draw_buf that differs
     * from display_buf is copied there and sent, an address pair opening
     * each run of differing words; then display_buf equals draw_buf, which
     * itself is left alone. When not drawing, nothing happens.
     */
    method UpdateDrawing()
      requires Valid()
      modifies this, displayBuf
      ensures Valid() && extended == old(extended) && drawing == old(drawing)
      ensures Grid(drawBuf) == old(Grid(drawBuf))
      ensures !drawing ==> log == old(log) && Grid(displayBuf) == old(Grid(displayBuf))
      ensures drawing ==> (Grid(displayBuf) == Grid(drawBuf) &&
                           log == old(log) + SyncRows(old(Grid(displayBuf)), Grid(drawBuf), BufRows))
    {
      if !drawing {
        return;
      }
      ghost var d0 := Grid(displayBuf);
      ghost var base := log;
      var row := 0;
      while row < BufRows
        invariant row <= BufRows && Valid() && extended == old(extended) && drawing == old(drawing)
        invariant Grid(drawBuf) == old(Grid(drawBuf))
        invariant RowsSet(Grid(displayBuf), d0, Grid(drawBuf), row)
        invariant log == base + SyncRows(d0, Grid(drawBuf), row)
      {
        SyncRow(row, d0, base);
        row := row + 1;
      }
      BufferEq(Grid(displayBuf), Grid(drawBuf));
    }

    /** One row of update_drawing, with `run` cleared at its start. */
    method SyncRow(row: nat, ghost d0: seq<seq<bv16>>, ghost base: seq<Write>)
      requires Valid() && row < BufRows && IsBuffer(d0)
      requires RowsSet(Grid(displayBuf), d0, Grid(drawBuf), row)
      requires log == base + SyncRows(d0, Grid(drawBuf), row)
      modifies this, displayBuf
      ensures Valid() && extended == old(extended) && drawing == old(drawing)
      ensures RowsSet(Grid(displayBuf), d0, Grid(drawBuf), row + 1)
      ensures log == base + SyncRows(d0, Grid(drawBuf), row + 1)
    {
      ghost var w := Grid(drawBuf);
      ghost var before := Grid(displayBuf);
      SendRow(row, d0[row], w[row]);
      RowsSetStep(before, Grid(displayBuf), d0, w, row);
      AppendAssoc(base, SyncRows(d0, w, row), RowLog(row, d0[row], w[row], BufCols));
    }

    /** The column loop of one row of update_drawing: display_buf's row becomes draw_buf's. */
    method SendRow(row: nat, ghost dr: seq<bv16>, ghost wr: seq<bv16>)
      requires Valid() && row < BufRows && |dr| == |wr| == BufCols
      requires forall c :: 0 <= c < BufCols ==> drawBuf[row, c] == wr[c] && displayBuf[row, c] == dr[c]
      modifies this, displayBuf
      ensures Valid() && extended == old(extended) && drawing == old(drawing)
      ensures RowSet(Grid(displayBuf), old(Grid(displayBuf)), row, wr, BufCols)
      ensures log == old(log) + RowLog(row, dr, wr, BufCols)
    {
      var run := false;
      var col := 0;
      while col < BufCols
        invariant col <= BufCols && extended == old(extended) && drawing == old(drawing)
        invariant run == (col > 0 && dr[col - 1] != wr[col - 1])
        invariant forall r, c :: 0 <= r < BufRows && 0 <= c < BufCols ==>
                    displayBuf[r, c] == (if r == row && c < col then wr[c] else old(displayBuf[r, c]))
        invariant log == old(log) + RowLog(row, dr, wr, col)
      {
        run := SyncCell(row, col, run, dr, wr);
        AppendAssoc(old(log), RowLog(row, dr, wr, col), CellLog(row, dr, wr, col));
        col := col + 1;
      }
    }

    /**
     * One word of update_drawing: a differing word is copied to display_buf
     * and sent, after the address pair when no run is open; an equal word
     * closes the run.
     */
    method SyncCell(row: nat, col: nat, run: bool, ghost dr: seq<bv16>, ghost wr: seq<bv16>)
      returns (run': bool)
      requires Valid() && row < BufRows && col < BufCols && |dr| == |wr| == BufCols
      requires forall c :: 0 <= c < BufCols ==> drawBuf[row, c] == wr[c]
      requires displayBuf[row, col] == dr[col]
      requires run == (col > 0 && dr[col - 1] != wr[col - 1])
      modifies this, displayBuf
      ensures extended == old(extended) && drawing == old(drawing)
      ensures forall r, c :: 0 <= r < BufRows && 0 <= c < BufCols ==>
                displayBuf[r, c] == (if r == row && c == col then wr[col] else old(displayBuf[r, c]))
      ensures run' == (dr[col] != wr[col])
      ensures log == old(log) + CellLog(row, dr, wr, col)
    {
      run' := run;
      var data := drawBuf[row, col];
      if displayBuf[row, col] != data {
        displayBuf[row, col] := data;
        if !run' {
          run' := true;
          WriteCmd(Addr(row));
          WriteCmd(Addr(col));
        }
        WriteData(Hi(displayBuf[row, col]));
        WriteData(Lo(displayBuf[row, col]));
      } else {
        run' := false;
      }
    }
  }
}
