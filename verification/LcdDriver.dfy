/** The display driver's drawing operations against the simulated display. */
module LcdDriver {
  import opened Words
  import opened LcdDevice

  /** The driver's own command codes. */
  const SET_COLUMNS: byte := 0x2a
  const SET_ROWS: byte := 0x2b
  const WRITE_MEMORY: byte := 0x2c

  // ----- what the display does with the driver's bytes ---------------------------------------

  function Sent(s: State, bytes: seq<byte>): (r: State)
    requires s.Valid()
    ensures r.Valid()
    decreases |bytes|
  {
    if bytes == [] then s else WriteByte(Sent(s, bytes[..|bytes| - 1]), bytes[|bytes| - 1])
  }

  lemma {:induction false} SentJoin(s: State, a: seq<byte>, b: seq<byte>)
    requires s.Valid()
    ensures Sent(s, a + b) == Sent(Sent(s, a), b)
    decreases |b|
  {
    hide WriteByte;
    if b == [] {
      assert a + b == a;
    } else {
      assert (a + b)[..|a + b| - 1] == a + b[..|b| - 1];
      SentJoin(s, a, b[..|b| - 1]);
    }
  }

  lemma SentOne(s: State, b: byte)
    requires s.Valid()
    ensures Sent(s, [b]) == WriteByte(s, b)
  {
    hide WriteByte;
    assert [b][..0] == [];
  }

  /** Two bytes in pixel mode are one pixel. */
  lemma TwoBytes(s: State, b0: byte, b1: byte)
    requires s.Valid() && s.pixWriting && s.cmd == []
    ensures Sent(s, [b0, b1]) == Pixel(s, Word(b0, b1))
  {
    hide Paint, Execute, Sent;
    assert [b0] + [b1] == [b0, b1];
    SentJoin(s, [b0], [b1]);
    SentOne(s, b0);
    SentOne(Sent(s, [b0]), b1);
    var t := s.(cmd := [b0]);
    assert WriteByte(s, b0) == t by { assert [] + [b0] == [b0]; }
    assert [b0] + [b1] == [b0, b1];
    PixelIgnoresHeld(s, t, Word(b0, b1));
  }

  lemma PixelIgnoresHeld(s: State, t: State, pix: u16)
    requires s.Valid() && t.Valid() && s.pixWriting && t == s.(cmd := t.cmd)
    ensures Pixel(t, pix) == Pixel(s, pix)
  {
  }

  /** A command with its four parameter bytes. */
  lemma WindowCommand(s: State, code: byte, a: byte, b: byte, c: byte, d: byte)
    requires s.Valid() && !s.pixWriting && s.cmd == [] && (code == CASET || code == RASET)
    ensures Sent(s, [code] + [a, b, c, d]) == Execute(s, [code, a, b, c, d])
  {
    hide Execute, Pixel, WriteByte, Sent;
    SentNone(s);
    assert [] + [code] == [code] && [code] + [a] == [code, a] && [code, a] + [b] == [code, a, b];
    assert [code, a, b] + [c] == [code, a, b, c] && [code] + [a, b, c, d] == [code, a, b, c] + [d];
    assert s.(cmd := []) == s;
    HeldMore(s, [], code);
    HeldMore(s, [code], a);
    HeldMore(s, [code, a], b);
    HeldMore(s, [code, a, b], c);
    SentMore(s, [code, a, b, c], d);
    Last(s, code, a, b, c, d);
  }

  lemma HeldMore(s: State, c: seq<byte>, b: byte)
    requires s.Valid() && !s.pixWriting && Sent(s, c) == s.(cmd := c) && |c| + 1 < CommandLength((c + [b])[0])
    ensures Sent(s, c + [b]) == s.(cmd := c + [b])
  {
    hide WriteByte, Sent;
    SentMore(s, c, b);
    Held(s, c, b);
  }

  lemma SentMore(s: State, a: seq<byte>, b: byte)
    requires s.Valid()
    ensures Sent(s, a + [b]) == WriteByte(Sent(s, a), b)
  {
    hide WriteByte;
    assert (a + [b])[..|a|] == a;
  }

  lemma Last(s: State, code: byte, a: byte, b: byte, c: byte, d: byte)
    requires s.Valid() && !s.pixWriting && s.cmd == [] && (code == CASET || code == RASET)
    ensures s.(cmd := [code, a, b, c]).Valid()
    ensures WriteByte(s.(cmd := [code, a, b, c]), d) == Execute(s, [code, a, b, c, d])
  {
    hide Execute, Pixel;
    assert [code, a, b, c] + [d] == [code, a, b, c, d];
    assert s.(cmd := [code, a, b, c]).(cmd := []) == s;
  }

  lemma Held(s: State, c: seq<byte>, b: byte)
    requires s.(cmd := c).Valid() && !s.pixWriting && |c| + 1 < CommandLength((c + [b])[0])
    ensures WriteByte(s.(cmd := c), b) == s.(cmd := c + [b])
  {
    hide Execute, Pixel;
  }

  /** How many parameter bytes follow the commands that do not touch the picture. */
  const PARAMETERS: map<byte, nat> :=
    map[0x3a := 1, 0xb1 := 3, 0xb2 := 3, 0xb3 := 6, 0xb4 := 1, 0xb6 := 2, 0xc0 := 2, 0xc1 := 1, 0xc2 := 2, 0xc3 := 2,
        0xc4 := 2, 0xc5 := 2, 0xe0 := 16, 0xe1 := 16, 0xfc := 2]

  function ParameterCount(code: byte): (n: nat)
    ensures n <= 16
  {
    if code in PARAMETERS then PARAMETERS[code] else 0
  }

  /** Reset, window, memory write and memory access control. */
  predicate Acts(code: byte) {
    code == 0x01 || code == 0x2a || code == 0x2b || code == 0x2c || code == 0x36
  }

  /** Any other command takes exactly its parameters, whatever they are, and changes nothing. */
  lemma OthersAreIgnored(s: State, code: byte, params: seq<byte>)
    requires s.Valid() && !s.pixWriting && s.cmd == [] && !Acts(code) && |params| == ParameterCount(code)
    ensures Sent(s, [code] + params) == s
  {
    hide WriteByte, Sent, ParameterCount, CommandLength;
    LengthOfOthers(code);
    var c := [code] + params;
    SentNone(s);
    assert s.(cmd := []) == s;
    if params == [] {
      assert c == [] + [code];
      SentMore(s, [], code);
      Ignored(s, [], code);
    } else {
      HeldParameters(s, c, |params|);
      var n := |params|;
      assert c == c[..n] + [c[n]];
      SentMore(s, c[..n], c[n]);
      Ignored(s, c[..n], c[n]);
    }
  }

  lemma LengthOfOthers(code: byte)
    requires !Acts(code)
    ensures CommandLength(code) == ParameterCount(code) + 1
  {
  }

  lemma {:induction false} HeldParameters(s: State, c: seq<byte>, n: nat)
    requires s.Valid() && !s.pixWriting && s.cmd == [] && 1 <= n <= |c| && n < CommandLength(c[0])
    ensures Sent(s, c[..n]) == s.(cmd := c[..n])
  {
    hide WriteByte, Sent, CommandLength;
    assert c[..n] == c[..n - 1] + [c[n - 1]];
    if n == 1 {
      SentNone(s);
      assert s.(cmd := []) == s && c[..0] == [];
    } else {
      HeldParameters(s, c, n - 1);
    }
    HeldMore(s, c[..n - 1], c[n - 1]);
  }

  lemma Ignored(s: State, c: seq<byte>, b: byte)
    requires s.(cmd := c).Valid() && !s.pixWriting && s.cmd == []
    requires var code := (c + [b])[0];
             !Acts(code) && |c| + 1 == CommandLength(code)
    ensures WriteByte(s.(cmd := c), b) == s
  {
    hide CommandLength;
    assert s.(cmd := []) == s;
  }

  /** Reset clears the panel, and the memory access control byte is kept. */
  lemma ResetAndAccess(s: State, b: byte)
    requires s.Valid() && !s.pixWriting && s.cmd == []
    ensures Sent(s, [0x36, b]) == s.(mad := b)
    ensures var t := Sent(s, [0x01]);
            t.mad == 0 && !t.pixWriting && t.cmd == [] && forall q :: 0 <= q < CELLS ==> t.frame[q] == 0
  {
    hide Sent, Pixel;
    SentOne(s, 0x01);
    SentOne(s, 0x36);
    SentJoin(s, [0x36], [b]);
    assert [0x36] + [b] == [0x36, b] && [] + [0x36] == [0x36] && [] + [0x01] == [0x01];
    SentOne(Sent(s, [0x36]), b);
  }

  // ----- where pixels go ---------------------------------------------------------------------

  /** The driver's coordinates of a cell of the panel's 160 rows of 128: bit 7 of the memory access control
      byte mirrors the rows, bit 6 the columns, and bit 5 exchanges the two. */
  function Logical(mad: byte, q: nat): (nat, nat)
    requires q < 20480
  {
    var c, r := q % 128, q / 128;
    var x := if mad as int % 0x80 >= 0x40 then 127 - c else c;
    var y := if mad as int >= 0x80 then 159 - r else r;
    if mad as int % 0x40 >= 0x20 then (y, x) else (x, y)
  }

  lemma MadBits(mad: byte)
    ensures MirrorY(mad) <==> mad as int >= 0x80
    ensures MirrorX(mad) <==> mad as int % 0x80 >= 0x40
    ensures Exchanged(mad) <==> mad as int % 0x40 >= 0x20
  {
    var n := mad as int;
    assert n == 0x20 * (n / 0x20) + n % 0x20 && n / 0x40 == n / 0x20 / 2 && n / 0x80 == n / 0x40 / 2;
  }

  /** The panel shows each on-panel pixel in its own cell. */
  lemma CellIffLogical(mad: byte, x: nat, y: nat, q: nat)
    requires q < CELLS
    ensures Cell(mad, x, y) == Some(q) <==> Logical(mad, q) == (x, y)
  {
    hide Exchanged, MirrorX, MirrorY;
    MadBits(mad);
    var c, r := if Exchanged(mad) then y else x, if Exchanged(mad) then x else y;
    if c < WIDTH && r < HEIGHT {
      RowAndColumn(if MirrorY(mad) then HEIGHT - 1 - r else r, if MirrorX(mad) then WIDTH - 1 - c else c, q);
    }
  }

  lemma RowAndColumn(r: nat, c: nat, q: nat)
    requires c < WIDTH
    ensures r * WIDTH + c == q <==> q / WIDTH == r && q % WIDTH == c
  {
  }

  lemma PaintAt(frame: seq<u16>, mad: byte, x: nat, y: nat, pix: u16, q: nat)
    requires |frame| == CELLS && q < CELLS
    ensures Paint(frame, mad, x, y, pix)[q] == if Logical(mad, q) == (x, y) then pix else frame[q]
  {
    hide Logical, Cell;
    CellIffLogical(mad, x, y, q);
  }

  /** The `k`th pixel of a byte stream. */
  function PixelAt(data: seq<byte>, k: nat): u16 {
    if 2 * k + 1 < |data| then 0x100 * data[2 * k] as int + data[2 * k + 1] as int else 0
  }

  /** `n` pixels of `data`, the first being `from`, along a row. */
  function PaintRow(frame: seq<u16>, mad: byte, x: nat, y: nat, data: seq<byte>, from: nat, n: nat): (r: seq<u16>)
    requires |frame| == CELLS
    ensures |r| == CELLS
  {
    if n == 0 then frame
    else Paint(PaintRow(frame, mad, x, y, data, from, n - 1), mad, x + n - 1, y, PixelAt(data, from + n - 1))
  }

  lemma {:induction false} PaintRowAt(
    frame: seq<u16>, mad: byte, x: nat, y: nat, data: seq<byte>, from: nat, n: nat, q: nat)
    requires |frame| == CELLS && q < CELLS
    ensures var (lx, ly) := Logical(mad, q);
            PaintRow(frame, mad, x, y, data, from, n)[q] ==
            if ly == y && x <= lx < x + n then PixelAt(data, from + (lx - x)) else frame[q]
  {
    hide Paint, PixelAt, Logical;
    if n > 0 {
      PaintRowAt(frame, mad, x, y, data, from, n - 1, q);
      PaintAt(PaintRow(frame, mad, x, y, data, from, n - 1), mad, x + n - 1, y, PixelAt(data, from + n - 1), q);
    }
  }

  function Area(h: nat, w: nat): nat {
    h * w
  }

  lemma AreaStep(h: nat, w: nat)
    requires h > 0
    ensures Area(h, w) == Area(h - 1, w) + w
  {
    assert h * w == (h - 1) * w + w;
  }

  /** `h` rows of `w` pixels. */
  function PaintRows(frame: seq<u16>, mad: byte, x: nat, y: nat, w: nat, data: seq<byte>, h: nat): (r: seq<u16>)
    requires |frame| == CELLS
    ensures |r| == CELLS
  {
    if h == 0 then frame
    else PaintRow(PaintRows(frame, mad, x, y, w, data, h - 1), mad, x, y + h - 1, data, Area(h - 1, w), w)
  }

  /** What the panel shows: each cell whose coordinates are in the window has its pixel of the data,
      row by row, and every other cell is as it was. */
  ghost predicate Shown(now: seq<u16>, was: seq<u16>, mad: byte, x: nat, y: nat, w: nat, h: nat, data: seq<byte>) {
    && |now| == |was| == CELLS
    && forall q: nat :: q < CELLS ==> now[q] == ShownAt(was, mad, x, y, w, h, data, q)
  }

  function ShownAt(was: seq<u16>, mad: byte, x: nat, y: nat, w: nat, h: nat, data: seq<byte>, q: nat): u16
    requires |was| == CELLS && q < CELLS
  {
    var (lx, ly) := Logical(mad, q);
    if x <= lx < x + w && y <= ly < y + h then PixelAt(data, (ly - y) * w + (lx - x)) else was[q]
  }

  lemma {:induction false} RowsAreShown(frame: seq<u16>, mad: byte, x: nat, y: nat, w: nat, data: seq<byte>, h: nat)
    requires |frame| == CELLS
    ensures Shown(PaintRows(frame, mad, x, y, w, data, h), frame, mad, x, y, w, h, data)
  {
    hide PixelAt, Logical, PaintRow;
    if h > 0 {
      RowsAreShown(frame, mad, x, y, w, data, h - 1);
      var before := PaintRows(frame, mad, x, y, w, data, h - 1);
      forall q: nat | q < CELLS
        ensures PaintRows(frame, mad, x, y, w, data, h)[q] == ShownAt(frame, mad, x, y, w, h, data, q)
      {
        PaintRowAt(before, mad, x, y + h - 1, data, (h - 1) * w, w, q);
      }
    }
  }

  /** Pixel `k` is in the cell of column `k mod w` and row `k div w` of the window. */
  lemma PixelIsShown(now: seq<u16>, was: seq<u16>, mad: byte, x: nat, y: nat, w: nat, h: nat, data: seq<byte>, k: nat)
    requires Shown(now, was, mad, x, y, w, h, data) && k < w * h && w > 0
    ensures k / w < h
    ensures var cell := Cell(mad, x + k % w, y + k / w);
            cell.Some? ==> now[cell.value] == PixelAt(data, k)
  {
    hide PixelAt, Logical, Cell;
    var i, j := k % w, k / w;
    RowOf(k, w, h);
    var cell := Cell(mad, x + i, y + j);
    if cell.Some? {
      CellIffLogical(mad, x + i, y + j, cell.value);
      assert ShownAt(was, mad, x, y, w, h, data, cell.value) == PixelAt(data, j * w + i);
    }
  }

  lemma RowOf(k: nat, w: nat, h: nat)
    requires w > 0 && k < w * h
    ensures k / w < h && (k / w) * w + k % w == k && k % w < w
  {
    var j := k / w;
    assert k == w * j + k % w;
    SmallerFactor(w, j, h);
  }

  lemma SmallerFactor(w: nat, a: nat, b: nat)
    ensures w * a < w * b ==> a < b
  {
    if a >= b {
      assert w * a == w * b + w * (a - b);
    }
  }

  // ----- a window of pixels ------------------------------------------------------------------

  /** At a pixel boundary of pixel mode. */
  ghost predicate Taking(s: State) {
    s.Valid() && s.pixWriting && s.cmd == []
  }

  /** Part of a row. */
  lemma {:induction false} RowPart(s: State, data: seq<byte>, from: nat, n: nat)
    requires Taking(s) && s.col + n <= s.xEnd && 2 * (from + n) <= |data|
    ensures Sent(s, data[2 * from..2 * (from + n)]) ==
            s.(col := s.col + n, frame := PaintRow(s.frame, s.mad, s.col, s.row, data, from, n))
    decreases n
  {
    hide Paint, Sent;
    if n == 0 {
      assert data[2 * from..2 * (from + n)] == [];
      SentNone(s);
    } else {
      RowPart(s, data, from, n - 1);
      NextPixel(s, data, from, n);
    }
  }

  lemma SentNone(s: State)
    requires s.Valid()
    ensures Sent(s, []) == s
  {
  }

  /** One pixel more than a run. */
  lemma NextPixel(s: State, data: seq<byte>, from: nat, n: nat)
    requires s.Valid() && n > 0 && 2 * (from + n) <= |data|
    requires Taking(Sent(s, data[2 * from..2 * (from + n - 1)]))
    ensures Sent(s, data[2 * from..2 * (from + n)]) ==
            Pixel(Sent(s, data[2 * from..2 * (from + n - 1)]), PixelAt(data, from + n - 1))
  {
    hide Sent, Pixel, WriteByte, PixelAt;
    var k := from + n - 1;
    assert 2 * (from + n) == 2 * k + 2;
    PixelAfter(s, data, 2 * from, k);
  }

  lemma PixelAfter(s: State, data: seq<byte>, lo: nat, k: nat)
    requires s.Valid() && lo <= 2 * k && 2 * k + 2 <= |data| && Taking(Sent(s, data[lo..2 * k]))
    ensures Sent(s, data[lo..2 * k + 2]) == Pixel(Sent(s, data[lo..2 * k]), PixelAt(data, k))
  {
    hide Sent, Pixel, WriteByte;
    var a, b := data[lo..2 * k], [data[2 * k], data[2 * k + 1]];
    SlicePixel(data, lo, 2 * k);
    SentJoin(s, a, b);
    TwoBytes(Sent(s, a), data[2 * k], data[2 * k + 1]);
  }

  lemma SlicePixel(data: seq<byte>, lo: nat, hi: nat)
    requires lo <= hi && hi + 2 <= |data|
    ensures data[lo..hi + 2] == data[lo..hi] + [data[hi], data[hi + 1]]
  {
  }

  /** A whole row of the window. */
  lemma FullRow(s: State, data: seq<byte>, from: nat, w: nat)
    requires Taking(s) && s.col == s.xStart <= s.xEnd < 0xffff && w == s.xEnd - s.xStart + 1 && s.row <= s.yEnd
    requires 2 * (from + w) <= |data|
    ensures Sent(s, data[2 * from..2 * (from + w)]) ==
            s.(row := (s.row + 1) % 0x1_0000, pixWriting := s.yEnd == 0xffff || s.row + 1 <= s.yEnd,
               frame := PaintRow(s.frame, s.mad, s.xStart, s.row, data, from, w))
  {
    hide Paint, Sent;
    RowPart(s, data, from, w - 1);
    NextPixel(s, data, from, w);
  }

  /** `h` rows of the window; only an end at 0xffff keeps the display in pixel mode after the last. */
  lemma {:induction false} Rows(s: State, data: seq<byte>, h: nat, w: nat)
    requires Taking(s) && s.col == s.xStart <= s.xEnd < 0xffff && w == s.xEnd - s.xStart + 1
    requires s.row == s.yStart <= s.yEnd && h <= s.yEnd - s.yStart + 1 && 2 * Area(h, w) <= |data|
    ensures Sent(s, data[..2 * Area(h, w)]) ==
            s.(row := (s.yStart + h) % 0x1_0000, pixWriting := s.yEnd == 0xffff || s.yStart + h <= s.yEnd,
               frame := PaintRows(s.frame, s.mad, s.xStart, s.yStart, w, data, h))
    decreases h
  {
    hide Paint, Sent, PaintRow, WriteByte, Area;
    if h == 0 {
      assert data[..2 * Area(h, w)] == [] by { NoArea(w); }
      SentNone(s);
    } else {
      var from := Area(h - 1, w);
      AreaStep(h, w);
      Rows(s, data, h - 1, w);
      OneMoreRow(s, Sent(s, data[..2 * from]), data, from, w);
    }
  }

  lemma NoArea(w: nat)
    ensures Area(0, w) == 0
  {
  }

  lemma OneMoreRow(s: State, t: State, data: seq<byte>, from: nat, w: nat)
    requires s.Valid() && 2 * (from + w) <= |data| && t == Sent(s, data[..2 * from])
    requires Taking(t) && t.col == t.xStart <= t.xEnd < 0xffff && w == t.xEnd - t.xStart + 1 && t.row <= t.yEnd
    ensures Sent(s, data[..2 * (from + w)]) ==
            t.(row := (t.row + 1) % 0x1_0000, pixWriting := t.yEnd == 0xffff || t.row + 1 <= t.yEnd,
               frame := PaintRow(t.frame, t.mad, t.xStart, t.row, data, from, w))
  {
    hide Sent, PaintRow;
    FullRow(t, data, from, w);
    SliceJoin(data, 2 * from, 2 * (from + w));
    SentJoin(s, data[..2 * from], data[2 * from..2 * (from + w)]);
  }

  lemma SliceJoin(data: seq<byte>, mid: nat, hi: nat)
    requires mid <= hi <= |data|
    ensures data[..hi] == data[..mid] + data[mid..hi]
  {
  }

  /** Until its last pixel the window keeps the display in pixel mode. */
  lemma StillTaking(s: State, data: seq<byte>, j: nat, i: nat, w: nat)
    requires Taking(s) && s.col == s.xStart <= s.xEnd < 0xffff && w == s.xEnd - s.xStart + 1
    requires s.row == s.yStart <= s.yEnd < 0xffff && j <= s.yEnd - s.yStart && i < w && 2 * (Area(j, w) + i) <= |data|
    ensures Taking(Sent(s, data[..2 * (Area(j, w) + i)]))
  {
    hide Sent, PaintRow, PaintRows, Area;
    var from := Area(j, w);
    Rows(s, data, j, w);
    var t := Sent(s, data[..2 * from]);
    RowPart(t, data, from, i);
    SliceJoin(data, 2 * from, 2 * (from + i));
    SentJoin(s, data[..2 * from], data[2 * from..2 * (from + i)]);
  }

  /** A window that ends at 0xffff never ends: the 16-bit counter cannot pass it. */
  lemma {:induction false} NeverEnds(s: State, data: seq<byte>, n: nat)
    requires Taking(s) && (s.xEnd == 0xffff || s.yEnd == 0xffff) && 2 * n <= |data|
    ensures var t := Sent(s, data[..2 * n]);
            Taking(t) && t.xEnd == s.xEnd && t.yEnd == s.yEnd
    decreases n
  {
    hide Sent, Paint;
    if n == 0 {
      assert data[..2 * n] == [];
      SentNone(s);
    } else {
      NeverEnds(s, data, n - 1);
      assert data[0..2 * (0 + n - 1)] == data[..2 * (n - 1)] && data[0..2 * (0 + n)] == data[..2 * n];
      NextPixel(s, data, 0, n);
    }
  }

  /** The column counter after `k` pixels from `x` when it is never reset. */
  function Column(x: nat, k: nat): nat {
    (x + k) % 0x1_0000
  }

  lemma ColumnNext(x: nat, k: nat)
    ensures Column(x, k + 1) == (Column(x, k) + 1) % 0x1_0000
  {
  }

  /** Pixels along one row, the column counter wrapping. */
  function PaintWrapped(frame: seq<u16>, mad: byte, x: nat, y: nat, data: seq<byte>, n: nat): (r: seq<u16>)
    requires |frame| == CELLS
    ensures |r| == CELLS
  {
    if n == 0 then frame
    else Paint(PaintWrapped(frame, mad, x, y, data, n - 1), mad, Column(x, n - 1), y, PixelAt(data, n - 1))
  }

  /** The last of `n` pixels whose wrapped column is `lx`. */
  function LastVisit(lx: nat, x: nat, n: nat): (r: Option<nat>)
    ensures r.Some? ==> r.value < n && Column(x, r.value) == lx && forall k: nat :: r.value < k < n ==> Column(x, k) != lx
    ensures r.None? ==> forall k: nat :: k < n ==> Column(x, k) != lx
  {
    if n == 0 then None else if Column(x, n - 1) == lx then Some(n - 1) else LastVisit(lx, x, n - 1)
  }

  /** A window that ends at column 0xffff stays in its first row: a cell of that row has the last pixel
      that the wrapping column counter brought to it, and every other cell is as it was. */
  ghost predicate ShownWrapped(now: seq<u16>, was: seq<u16>, mad: byte, x: nat, y: nat, n: nat, data: seq<byte>) {
    && |now| == |was| == CELLS
    && forall q: nat :: q < CELLS ==> now[q] == ShownWrappedAt(was, mad, x, y, n, data, q)
  }

  function ShownWrappedAt(was: seq<u16>, mad: byte, x: nat, y: nat, n: nat, data: seq<byte>, q: nat): u16
    requires |was| == CELLS && q < CELLS
  {
    var (lx, ly) := Logical(mad, q);
    if ly == y && LastVisit(lx, x, n).Some? then PixelAt(data, LastVisit(lx, x, n).value) else was[q]
  }

  lemma {:induction false} WrappedIsShown(frame: seq<u16>, mad: byte, x: nat, y: nat, data: seq<byte>, n: nat)
    requires |frame| == CELLS
    ensures ShownWrapped(PaintWrapped(frame, mad, x, y, data, n), frame, mad, x, y, n, data)
  {
    hide Paint, PixelAt, Logical, Column;
    if n > 0 {
      WrappedIsShown(frame, mad, x, y, data, n - 1);
      var before := PaintWrapped(frame, mad, x, y, data, n - 1);
      forall q: nat | q < CELLS
        ensures PaintWrapped(frame, mad, x, y, data, n)[q] == ShownWrappedAt(frame, mad, x, y, n, data, q)
      {
        PaintAt(before, mad, Column(x, n - 1), y, PixelAt(data, n - 1), q);
      }
    }
  }

  /** Pixels into such a window. */
  lemma {:induction false} WrappedRun(s: State, data: seq<byte>, n: nat)
    requires Taking(s) && s.xEnd == 0xffff && 2 * n <= |data|
    ensures Sent(s, data[..2 * n]) ==
            s.(col := Column(s.col, n), frame := PaintWrapped(s.frame, s.mad, s.col, s.row, data, n))
    decreases n
  {
    hide Sent, Paint, WriteByte, Pixel, Column, PixelAt;
    if n == 0 {
      assert data[..2 * n] == [];
      SentNone(s);
      assert Column(s.col, 0) == s.col by { ColumnStart(s.col); }
    } else {
      WrappedRun(s, data, n - 1);
      var t := Sent(s, data[..2 * (n - 1)]);
      assert data[0..2 * n - 2] == data[..2 * n - 2] && data[0..2 * n] == data[..2 * n];
      PixelAfter(s, data, 0, n - 1);
      WrappedPixel(t, PixelAt(data, n - 1));
      ColumnNext(s.col, n - 1);
    }
  }

  lemma ColumnStart(x: nat)
    requires x < 0x1_0000
    ensures Column(x, 0) == x
  {
  }

  lemma WrappedPixel(s: State, pix: u16)
    requires Taking(s) && s.xEnd == 0xffff
    ensures Pixel(s, pix) == s.(col := (s.col + 1) % 0x1_0000, frame := Paint(s.frame, s.mad, s.col, s.row, pix))
  {
    hide Paint;
  }

  // ----- the driver --------------------------------------------------------------------------

  ghost predicate Idle(s: State) {
    s.Valid() && !s.pixWriting && s.cmd == []
  }

  /** A window set, and its pixels begun. */
  function Opened(s: State, x0: u16, y0: u16, x1: u16, y1: u16): State {
    s.(xStart := x0, xEnd := x1, yStart := y0, yEnd := y1, col := x0, row := y0, pixWriting := true)
  }

  function Coords(a: u16, b: u16): seq<byte> {
    [a as int / 0x100, a as int % 0x100, b as int / 0x100, b as int % 0x100]
  }

  lemma WindowSet(s: State, code: byte, a: u16, b: u16)
    requires Idle(s) && (code == CASET || code == RASET)
    ensures Sent(s, [code] + Coords(a, b)) ==
            if code == CASET then s.(xStart := a, xEnd := b) else s.(yStart := a, yEnd := b)
  {
    hide Sent;
    var c := Coords(a, b);
    WindowCommand(s, code, c[0], c[1], c[2], c[3]);
  }

  class LcdPort {
    const lcd: Lcd

    constructor (lcd: Lcd)
      ensures this.lcd == lcd
    {
      this.lcd := lcd;
    }

    method BlockingWrite(bytes: seq<byte>)
      requires lcd.Value().Valid()
      modifies lcd, lcd.frame
      ensures lcd.Value() == Sent(old(lcd.Value()), bytes) && lcd.Value().Valid()
    {
      hide WriteByte;
      var i := 0;
      assert bytes[..0] == [];
      while i < |bytes|
        invariant 0 <= i <= |bytes| && lcd.Value() == Sent(old(lcd.Value()), bytes[..i])
      {
        assert bytes[..i + 1][..i] == bytes[..i];
        lcd.Write(bytes[i]);
        i := i + 1;
      }
      assert bytes[..i] == bytes;
    }

    /** `write_buffer`: at most 0x7ff bytes at a time, which may split a pixel. */
    method WriteBuffer(data: seq<byte>)
      requires lcd.Value().Valid()
      modifies lcd, lcd.frame
      ensures lcd.Value() == Sent(old(lcd.Value()), data) && lcd.Value().Valid()
    {
      hide Sent;
      var done, len := 0, |data|;
      SentNone(lcd.Value());
      assert data[..0] == [];
      while len > 0
        invariant 0 <= len && done + len == |data|
        invariant lcd.Value().Valid() && lcd.Value() == Sent(old(lcd.Value()), data[..done])
      {
        var chunk := if len >= 0x800 then 0x7ff else len;
        assert data[..done + chunk] == data[..done] + data[done..done + chunk];
        SentJoin(old(lcd.Value()), data[..done], data[done..done + chunk]);
        BlockingWrite(data[done..done + chunk]);
        done, len := done + chunk, len - chunk;
      }
      assert data[..done] == data;
    }

    /** `set_address` and the memory-write command. */
    method Open(x0: u16, y0: u16, x1: u16, y1: u16)
      requires Idle(lcd.Value())
      modifies lcd, lcd.frame
      ensures lcd.Value() == Opened(old(lcd.Value()), x0, y0, x1, y1) && lcd.Value().Valid()
    {
      hide Sent, Coords;
      WindowSet(lcd.Value(), SET_COLUMNS, x0, x1);
      SentJoin(lcd.Value(), [SET_COLUMNS], Coords(x0, x1));
      BlockingWrite([SET_COLUMNS]);
      WriteBuffer(Coords(x0, x1));
      WindowSet(lcd.Value(), SET_ROWS, y0, y1);
      SentJoin(lcd.Value(), [SET_ROWS], Coords(y0, y1));
      BlockingWrite([SET_ROWS]);
      WriteBuffer(Coords(y0, y1));
      SentOne(lcd.Value(), WRITE_MEMORY);
      BlockingWrite([WRITE_MEMORY]);
    }

    /** `draw_image`, for every window whose pixel count does not overflow.  A window in order gets
        exactly its pixels; one without pixels leaves the display in pixel mode. */
    method DrawImage(x0: u16, y0: u16, x1: u16, y1: u16, data: seq<byte>)
      requires Idle(lcd.Value()) && Fits(x0, y0, x1, y1) && |data| == 2 * PixelCount(x0, y0, x1, y1) % TWO32
      modifies lcd, lcd.frame
      ensures Idle(old(lcd.Value())) && lcd.Value() == Sent(Opened(old(lcd.Value()), x0, y0, x1, y1), data)
      ensures x0 <= x1 && y0 <= y1 ==> Drew(lcd.Value(), old(lcd.Value()), x0, y0, x1, y1, data)
      ensures PixelCount(x0, y0, x1, y1) == 0 ==> Taking(lcd.Value()) && lcd.frame[..] == old(lcd.frame[..])
    {
      hide Sent, Drew;
      Open(x0, y0, x1, y1);
      SentNone(lcd.Value());
      if x0 <= x1 && y0 <= y1 {
        CountInOrder(x0, y0, x1, y1);
        WindowIsDrawn(old(lcd.Value()), x0, y0, x1, y1, data);
      }
      WriteBuffer(data);
    }

    /** `fill_rect`: the low two bytes of `pix`, the lower first, so that the display takes the lower
        as the upper half of the colour. */
    method FillRect(x0: u16, y0: u16, x1: u16, y1: u16, pix: nat)
      requires Idle(lcd.Value()) && Fits(x0, y0, x1, y1)
      modifies lcd, lcd.frame
      ensures var data := Repeated(pix, PixelCount(x0, y0, x1, y1));
              && lcd.Value() == Sent(Opened(old(lcd.Value()), x0, y0, x1, y1), data)
              && (x0 <= x1 && y0 <= y1 ==> Drew(lcd.Value(), old(lcd.Value()), x0, y0, x1, y1, data))
      ensures x0 <= x1 && y0 <= y1 ==>
                Coloured(lcd.Value().frame, old(lcd.Value()).frame, old(lcd.mad), x0, y0, x1, y1,
                         0x100 * (pix % 0x100) + pix / 0x100 % 0x100)
      ensures PixelCount(x0, y0, x1, y1) == 0 ==> Taking(lcd.Value()) && lcd.frame[..] == old(lcd.frame[..])
    {
      hide Sent, Drew, PixelCount, Coloured;
      Open(x0, y0, x1, y1);
      ghost var s := lcd.Value();
      var npix, n := PixelCount(x0, y0, x1, y1), 0;
      SentNone(s);
      while npix > 0
        invariant npix + n == PixelCount(x0, y0, x1, y1) && npix >= 0 && n >= 0
        invariant lcd.Value().Valid() && lcd.Value() == Sent(s, Repeated(pix, n))
      {
        SentJoin(s, Repeated(pix, n), [pix % 0x100, pix / 0x100 % 0x100]);
        WriteBuffer([pix % 0x100, pix / 0x100 % 0x100]);
        npix, n := npix - 1, n + 1;
      }
      if x0 <= x1 && y0 <= y1 {
        CountInOrder(x0, y0, x1, y1);
        WindowIsDrawn(old(lcd.Value()), x0, y0, x1, y1, Repeated(pix, n));
        FillIsColoured(lcd.Value(), old(lcd.Value()), x0, y0, x1, y1, pix);
      }
    }
  }

  /** Whether a window in order reaches a cell: its coordinates are in it, or, when it ends at column
      0xffff, in its first row and reached by the wrapping column counter. */
  ghost predicate Reaches(mad: byte, x0: u16, y0: u16, x1: u16, y1: u16, q: nat)
    requires q < CELLS && x0 <= x1 && y0 <= y1
  {
    var (lx, ly) := Logical(mad, q);
    var w, h := x1 as int - x0 as int + 1, y1 as int - y0 as int + 1;
    if x1 < 0xffff then x0 as int <= lx <= x1 as int && y0 as int <= ly <= y1 as int
    else ly == y0 as int && h * w >= 0 && LastVisit(lx, x0, h * w).Some?
  }

  /** Exactly the cells that the window reaches have the colour. */
  ghost predicate Coloured(now: seq<u16>, was: seq<u16>, mad: byte, x0: u16, y0: u16, x1: u16, y1: u16, colour: u16)
    requires x0 <= x1 && y0 <= y1
  {
    && |now| == |was| == CELLS
    && forall q: nat :: q < CELLS ==> now[q] == if Reaches(mad, x0, y0, x1, y1, q) then colour else was[q]
  }

  lemma FillIsColoured(now: State, was: State, x0: u16, y0: u16, x1: u16, y1: u16, pix: nat)
    requires x0 <= x1 && y0 <= y1 && Fits(x0, y0, x1, y1)
    requires Drew(now, was, x0, y0, x1, y1, Repeated(pix, PixelCount(x0, y0, x1, y1)))
    ensures Coloured(now.frame, was.frame, was.mad, x0, y0, x1, y1, 0x100 * (pix % 0x100) + pix / 0x100 % 0x100)
  {
    hide PixelAt, Logical, Repeated, PixelCount, Fits, Idle, Taking, LastVisit;
    var w: nat, h: nat := x1 as int - x0 as int + 1, y1 as int - y0 as int + 1;
    var n := PixelCount(x0, y0, x1, y1);
    CountInOrder(x0, y0, x1, y1);
    forall q: nat | q < CELLS && Reaches(was.mad, x0, y0, x1, y1, q)
      ensures now.frame[q] == 0x100 * (pix % 0x100) + pix / 0x100 % 0x100
    {
      var (lx, ly) := Logical(was.mad, q);
      if x1 < 0xffff {
        IndexInWindow(ly - y0 as int, lx - x0 as int, h, w);
        RepeatedAt(pix, n, (ly - y0 as int) * w + (lx - x0 as int));
      } else {
        VisitInRange(lx, x0, n);
        RepeatedAt(pix, n, LastVisit(lx, x0, n).value);
      }
    }
  }

  lemma VisitInRange(lx: nat, x: nat, n: nat)
    requires LastVisit(lx, x, n).Some?
    ensures LastVisit(lx, x, n).value < n
  {
  }

  lemma IndexInWindow(a: nat, b: nat, h: nat, w: nat)
    requires a < h && b < w
    ensures 0 <= a * w + b < h * w
  {
    assert h * w == a * w + w + (h - a - 1) * w;
  }

  /** The signed product that the pixel count is computed as. */
  function SignedCount(x0: u16, y0: u16, x1: u16, y1: u16): int {
    (1 + y1 as int - y0 as int) * (1 + x1 as int - x0 as int)
  }

  /** The pixel count, converted to 32 unsigned bits. */
  function PixelCount(x0: u16, y0: u16, x1: u16, y1: u16): (n: nat)
    ensures n < TWO32
  {
    SignedCount(x0, y0, x1, y1) % TWO32
  }

  /** No signed overflow in the pixel count. */
  predicate Fits(x0: u16, y0: u16, x1: u16, y1: u16) {
    -0x8000_0000 <= SignedCount(x0, y0, x1, y1) < 0x8000_0000
  }

  /** The count of a window in order is its area, and twice that does not wrap. */
  lemma CountInOrder(x0: u16, y0: u16, x1: u16, y1: u16)
    requires x0 <= x1 && y0 <= y1 && Fits(x0, y0, x1, y1)
    ensures var w, h := x1 as int - x0 as int + 1, y1 as int - y0 as int + 1;
            PixelCount(x0, y0, x1, y1) == h * w && 2 * PixelCount(x0, y0, x1, y1) < TWO32
  {
    var w: nat, h: nat := x1 as int - x0 as int + 1, y1 as int - y0 as int + 1;
    assert h * w >= 0;
  }

  /** The bytes of `n` pixels of one colour. */
  function Repeated(pix: nat, n: nat): (r: seq<byte>)
    ensures |r| == 2 * n
  {
    if n == 0 then [] else Repeated(pix, n - 1) + [pix % 0x100, pix / 0x100 % 0x100]
  }

  lemma {:induction false} RepeatedAt(pix: nat, n: nat, k: nat)
    requires k < n
    ensures PixelAt(Repeated(pix, n), k) == 0x100 * (pix % 0x100) + pix / 0x100 % 0x100
  {
    if k < n - 1 {
      RepeatedAt(pix, n - 1, k);
    }
  }

  /** The outcome of a drawing operation: the window shows the data and nothing else has changed, with the
      column counter wrapping in a window that ends at column 0xffff; the display is back in command
      mode exactly when the window ends at 0xffff in neither direction. */
  ghost predicate Drew(now: State, was: State, x0: u16, y0: u16, x1: u16, y1: u16, data: seq<byte>)
    requires x0 <= x1 && y0 <= y1
  {
    var w, h := x1 as int - x0 as int + 1, y1 as int - y0 as int + 1;
    && now.mad == was.mad && (if x1 < 0xffff && y1 < 0xffff then Idle(now) else Taking(now))
    && (if x1 < 0xffff then Shown(now.frame, was.frame, was.mad, x0, y0, w, h, data)
        else h * w >= 0 && ShownWrapped(now.frame, was.frame, was.mad, x0, y0, h * w, data))
  }

  lemma WindowIsDrawn(s: State, x0: u16, y0: u16, x1: u16, y1: u16, data: seq<byte>)
    requires Idle(s) && x0 <= x1 && y0 <= y1
    requires |data| == 2 * ((y1 as int - y0 as int + 1) * (x1 as int - x0 as int + 1))
    ensures var t := Opened(s, x0, y0, x1, y1);
            t.Valid() && Drew(Sent(t, data), s, x0, y0, x1, y1, data)
  {
    hide Sent, Shown, PaintRows, ShownWrapped, PaintWrapped;
    var t := Opened(s, x0, y0, x1, y1);
    var w, h := x1 as int - x0 as int + 1, y1 as int - y0 as int + 1;
    assert data[..2 * Area(h, w)] == data;
    if x1 < 0xffff {
      Rows(t, data, h, w);
      RowsAreShown(s.frame, s.mad, x0, y0, w, data, h);
    } else {
      WrappedRun(t, data, h * w);
      WrappedIsShown(s.frame, s.mad, x0, y0, data, h * w);
    }
  }
}
