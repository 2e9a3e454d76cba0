/** The simulated ST7735 display, `spi_lcd`: window registers, pixel mode and frame buffer. */
module LcdDevice {
  import opened Words

  const WIDTH: nat := 128
  const HEIGHT: nat := 160
  const CELLS: nat := 20480
  const SWRESET: nat := 0x01
  const CASET: byte := 0x2a
  const RASET: byte := 0x2b
  const RAMWR: byte := 0x2c
  const MADCTL: byte := 0x36

  /** The frame buffer is kept row after row. */
  datatype State = State(
    pixWriting: bool, mad: byte, col: nat, row: nat, xStart: nat, xEnd: nat, yStart: nat, yEnd: nat, cmd: seq<byte>,
    frame: seq<u16>)
  {
    ghost predicate Valid() {
      && |frame| == CELLS && col < 0x1_0000 && row < 0x1_0000
      && xStart < 0x1_0000 && xEnd < 0x1_0000 && yStart < 0x1_0000 && yEnd < 0x1_0000
      && (cmd != [] ==> |cmd| < if pixWriting then 2 else CommandLength(cmd[0]))
    }
  }

  function CommandLength(code: byte): (n: nat)
    ensures 1 <= n <= 17
  {
    if code == CASET || code == RASET then 5
    else if code in [0xe0, 0xe1] then 17
    else if code == 0xb3 then 7
    else if code in [0xb1, 0xb2] then 4
    else if code in [0xb6, 0xc0, 0xc2, 0xc3, 0xc4, 0xfc, 0xc5] then 3
    else if code in [0x3a, 0x36, 0xb4, 0xc1] then 2
    else 1
  }

  function Word(hi: byte, lo: byte): u16 {
    0x100 * hi as int + lo as int
  }

  /** Row/column exchange and the two mirrors. */
  predicate Exchanged(mad: byte) { mad as int / 0x20 % 2 == 1 }
  predicate MirrorX(mad: byte) { mad as int / 0x40 % 2 == 1 }
  predicate MirrorY(mad: byte) { mad as int / 0x80 % 2 == 1 }

  /** Where a pixel of the driver's coordinates is kept, unless it is off the panel. */
  function Cell(mad: byte, x: nat, y: nat): (r: Option<nat>)
    ensures r.Some? ==> r.value < CELLS
  {
    var c, r := if Exchanged(mad) then y else x, if Exchanged(mad) then x else y;
    if c < WIDTH && r < HEIGHT then
      Some((if MirrorY(mad) then HEIGHT - 1 - r else r) * WIDTH + (if MirrorX(mad) then WIDTH - 1 - c else c))
    else None
  }

  function Paint(frame: seq<u16>, mad: byte, x: nat, y: nat, pix: u16): (r: seq<u16>)
    requires |frame| == CELLS
    ensures |r| == CELLS
  {
    var cell := Cell(mad, x, y);
    if cell.Some? then frame[cell.value := pix] else frame
  }

  /** The next pixel; the address counters are 16 bits wide. */
  function Advance(s: State): State {
    var col := (s.col + 1) % 0x1_0000;
    if col > s.xEnd then
      var row := (s.row + 1) % 0x1_0000;
      s.(col := s.xStart, row := row, pixWriting := row <= s.yEnd)
    else s.(col := col)
  }

  /** A complete pixel. */
  function Pixel(s: State, pix: u16): (r: State)
    requires s.Valid() && s.pixWriting
    ensures r.Valid() && r.cmd == []
  {
    Advance(s.(cmd := [], frame := Paint(s.frame, s.mad, s.col, s.row, pix)))
  }

  const CLEAR := State(false, 0, 0, 0, 0, 0, 0, 0, [], [])

  /** A complete command. */
  function Execute(s: State, c: seq<byte>): (r: State)
    requires s.Valid() && s.cmd == [] && c != [] && |c| == CommandLength(c[0])
    ensures r.Valid() && r.cmd == []
  {
    var code := c[0];
    if code == SWRESET then CLEAR.(frame := Blank())
    else if code == MADCTL then s.(mad := c[1])
    else if code == CASET then s.(xStart := Word(c[1], c[2]), xEnd := Word(c[3], c[4]))
    else if code == RASET then s.(yStart := Word(c[1], c[2]), yEnd := Word(c[3], c[4]))
    else if code == RAMWR then s.(col := s.xStart, row := s.yStart, pixWriting := true)
    else s
  }

  function Blank(): (r: seq<u16>)
    ensures |r| == CELLS && forall i :: 0 <= i < CELLS ==> r[i] == 0
  {
    seq<u16>(CELLS, i => 0)
  }

  /** `writeByte`. */
  function WriteByte(s: State, b: byte): (r: State)
    requires s.Valid()
    ensures r.Valid()
  {
    var c := s.cmd + [b];
    if s.pixWriting then
      if |c| >= 2 then Pixel(s, Word(c[0], c[1])) else s.(cmd := c)
    else if |c| >= CommandLength(c[0]) then Execute(s.(cmd := []), c)
    else s.(cmd := c)
  }

  class Lcd {
    var pixWriting: bool
    var mad: byte
    var col: nat
    var row: nat
    var xStart: nat
    var xEnd: nat
    var yStart: nat
    var yEnd: nat
    var cmd: seq<byte>
    const frame: array<u16>

    ghost function Value(): State
      reads this, frame
    {
      State(pixWriting, mad, col, row, xStart, xEnd, yStart, yEnd, cmd, frame[..])
    }

    constructor ()
      ensures Value() == CLEAR.(frame := Blank()) && fresh(frame)
    {
      pixWriting, mad, col, row, xStart, xEnd, yStart, yEnd, cmd := false, 0, 0, 0, 0, 0, 0, 0, [];
      frame := new u16[CELLS](i => 0);
    }

    method Reset()
      requires frame.Length == CELLS
      modifies this, frame
      ensures Value() == CLEAR.(frame := Blank())
    {
      pixWriting, mad, col, row, xStart, xEnd, yStart, yEnd, cmd := false, 0, 0, 0, 0, 0, 0, 0, [];
      forall i | 0 <= i < CELLS {
        frame[i] := 0;
      }
    }

    /** The pixel at the current address, unless that is off the panel. */
    method StorePixel(pix: u16)
      requires Value().Valid()
      modifies frame
      ensures frame[..] == Paint(old(frame[..]), mad, col, row, pix)
    {
      hide Exchanged, MirrorX, MirrorY;
      var c, r := if Exchanged(mad) then row else col, if Exchanged(mad) then col else row;
      if c < WIDTH && r < HEIGHT {
        if MirrorX(mad) {
          c := WIDTH - 1 - c;
        }
        if MirrorY(mad) {
          r := HEIGHT - 1 - r;
        }
        frame[r * WIDTH + c] := pix;
      }
    }

    method WritePixel(pix: u16)
      requires Value().Valid() && pixWriting
      modifies this, frame
      ensures Value() == Pixel(old(Value()), pix)
    {
      hide Paint;
      StorePixel(pix);
      col := (col + 1) % 0x1_0000;
      if col > xEnd {
        col := xStart;
        row := (row + 1) % 0x1_0000;
        if row > yEnd {
          pixWriting := false;
        }
      }
      cmd := [];
    }

    /** `writeByte`. */
    method Write(b: byte)
      requires Value().Valid()
      modifies this, frame
      ensures Value() == WriteByte(old(Value()), b)
    {
      hide Pixel, Blank;
      var c := cmd + [b];
      if pixWriting {
        if |c| >= 2 {
          WritePixel(Word(c[0], c[1]));
        } else {
          cmd := c;
        }
      } else if |c| >= CommandLength(c[0]) {
        if c[0] == SWRESET {
          Reset();
        } else if c[0] == MADCTL {
          mad := c[1];
        } else if c[0] == CASET {
          xStart, xEnd := Word(c[1], c[2]), Word(c[3], c[4]);
        } else if c[0] == RASET {
          yStart, yEnd := Word(c[1], c[2]), Word(c[3], c[4]);
        } else if c[0] == RAMWR {
          col, row, pixWriting := xStart, yStart, true;
        }
        cmd := [];
      } else {
        cmd := c;
      }
    }
  }
}
