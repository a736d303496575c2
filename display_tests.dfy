/** The scenarios of the driver's own tests, with the glyphs the tests render through a
    font spelled out as the pixels they light (color 15), and the partial flush that
    follows them. */
module DisplayTests {
  import opened Wrappers
  import opened DisplayInterface
  import opened Framebuffer
  import opened BoundingBox
  import opened Display

  /** The state of a new driver: a zeroed buffer, no box, no changes. */
  function Blank(): (c: Canvas)
    ensures |c.buffer| == BufferSize
  {
    Canvas(seq(BufferSize, _ => 0), None, 0)
  }

  /** `draw_iter` as a left-to-right pass, the way the loop runs. */
  function DrawFrom(c: Canvas, ps: seq<Pixel>): (r: Canvas)
    requires |c.buffer| == BufferSize
    ensures |r.buffer| == BufferSize
    decreases |ps|
  {
    if ps == [] then c else DrawFrom(DrawPixel(c, ps[0]), ps[1..])
  }

  /** Drawing a pixel sequence is drawing its first pixel and then the rest. */
  lemma {:induction false} DrawFromIsDraw(c: Canvas, ps: seq<Pixel>)
    requires |c.buffer| == BufferSize
    ensures Draw(c, ps) == DrawFrom(c, ps)
    decreases |ps|
  {
    if ps != [] {
      DrawFirst(c, ps);
      DrawFromIsDraw(DrawPixel(c, ps[0]), ps[1..]);
    }
  }

  lemma {:induction false} DrawFirst(c: Canvas, ps: seq<Pixel>)
    requires |c.buffer| == BufferSize && ps != []
    ensures Draw(c, ps) == Draw(DrawPixel(c, ps[0]), ps[1..])
    decreases |ps|
  {
    if |ps| > 1 {
      var init := ps[..|ps| - 1];
      DrawFirst(c, init);
      assert init[0] == ps[0] && init[1..] == ps[1..][..|ps| - 2];
    } else {
      assert ps == [ps[0]] && ps[1..] == [];
    }
  }

  /** The (column-byte, row) of every on-screen pixel of ps, in order. */
  function OnScreenPoints(ps: seq<Pixel>): seq<Point>
    decreases |ps|
  {
    if ps == [] then []
    else (if InBounds(ps[0].x, ps[0].y) then [(ps[0].x / 2, ps[0].y)] else []) + OnScreenPoints(ps[1..])
  }

  /** OnScreenPoints read from the other end. */
  lemma {:induction false} OnScreenPointsSnoc(ps: seq<Pixel>)
    requires ps != []
    ensures OnScreenPoints(ps) == OnScreenPoints(ps[..|ps| - 1])
      + (var p := ps[|ps| - 1]; if InBounds(p.x, p.y) then [(p.x / 2, p.y)] else [])
    decreases |ps|
  {
    if |ps| > 1 {
      OnScreenPointsSnoc(ps[1..]);
      assert ps[1..][..|ps| - 2] == ps[..|ps| - 1][1..];
    }
  }

  /** No two pixels of ps are at the same place. */
  predicate DistinctPositions(ps: seq<Pixel>) {
    forall i, j | 0 <= i < j < |ps| :: ps[i].x != ps[j].x || ps[i].y != ps[j].y
  }

  /** Every on-screen pixel of ps has a color its place in buf does not have yet. */
  predicate AllNew(buf: seq<bv8>, ps: seq<Pixel>)
    requires |buf| == BufferSize
  {
    forall i | 0 <= i < |ps| && InBounds(ps[i].x, ps[i].y) :: PixelAt(buf, ps[i].x, ps[i].y) != ps[i].color
  }

  /** Painting pixels elsewhere leaves pixel (x, y) as it was. */
  lemma {:induction false} PaintKeeps(buf: seq<bv8>, ps: seq<Pixel>, x: int, y: int)
    requires |buf| == BufferSize && InBounds(x, y)
    requires forall i | 0 <= i < |ps| :: ps[i].x != x || ps[i].y != y
    ensures PixelAt(Paint(buf, ps), x, y) == PixelAt(buf, x, y)
    decreases |ps|
  {
    if ps != [] {
      var init, p := ps[..|ps| - 1], ps[|ps| - 1];
      PaintKeeps(buf, init, x, y);
      if InBounds(p.x, p.y) {
        WriteKeepsOtherPixels(Paint(buf, init), p.x, p.y, p.color, x, y);
      }
    }
  }

  /** Drawing pixels at distinct places, each with a color new to its place: every
      on-screen pixel changes its byte and is recorded, and no other is. */
  lemma {:induction false} DrawNewPixels(c: Canvas, ps: seq<Pixel>)
    requires |c.buffer| == BufferSize
    requires DistinctPositions(ps) && AllNew(c.buffer, ps)
    ensures ChangeLog(c, ps) == OnScreenPoints(ps)
    decreases |ps|
  {
    if ps != [] {
      var init, p := ps[..|ps| - 1], ps[|ps| - 1];
      assert DistinctPositions(init) && AllNew(c.buffer, init) by {
        forall i | 0 <= i < |init| ensures init[i] == ps[i] { }
      }
      DrawNewPixels(c, init);
      var before := Draw(c, init);
      DrawPaints(c, init);
      DrawPixelEffect(before, p);
      if InBounds(p.x, p.y) {
        forall i | 0 <= i < |init| ensures init[i].x != p.x || init[i].y != p.y {
          assert init[i] == ps[i];
        }
        PaintKeeps(c.buffer, init, p.x, p.y);
        assert PixelAt(c.buffer, p.x, p.y) != p.color by {
          assert ps[|ps| - 1] == p;
        }
      }
      OnScreenPointsSnoc(ps);
    }
  }

  /** Every pixel of a new driver is 0, so any lit pixel is new to it. */
  lemma BlankAllNew(ps: seq<Pixel>)
    requires forall i | 0 <= i < |ps| :: ps[i].color != 0
    ensures AllNew(Blank().buffer, ps)
  {
    forall i | 0 <= i < |ps| && InBounds(ps[i].x, ps[i].y)
      ensures PixelAt(Blank().buffer, ps[i].x, ps[i].y) != ps[i].color
    {
      var b := Blank().buffer[Index(ps[i].x, ps[i].y)];
      assert b == 0;
      assert UpperNibble(b) == 0 && LowerNibble(b) == 0;
    }
  }

  /** Drawing lit pixels at distinct places onto a new driver: one change per on-screen
      pixel, and the box is the min/max of their column-bytes and rows. */
  lemma DrawOnBlank(ps: seq<Pixel>, box: Option<Box>)
    requires DistinctPositions(ps)
    requires forall i | 0 <= i < |ps| :: ps[i].color != 0
    requires Tight(box, PointsOf(OnScreenPoints(ps)))
    ensures Draw(Blank(), ps).changed == |OnScreenPoints(ps)|
    ensures Draw(Blank(), ps).box == box
  {
    BlankAllNew(ps);
    DrawNewPixels(Blank(), ps);
    DrawCounts(Blank(), ps);
    DrawBoxIsMinMax(Blank().buffer, 0, ps, box);
  }

  /** A box is the min/max rectangle of a list of points when it holds them all and each
      of its four bounds is reached by a point of the list. */
  lemma TightFromWitnesses(pts: seq<Point>, b: Box, i0: nat, i1: nat, i2: nat, i3: nat)
    requires i0 < |pts| && i1 < |pts| && i2 < |pts| && i3 < |pts|
    requires pts[i0].0 == b.colMin && pts[i1].0 == b.colMax && pts[i2].1 == b.rowMin && pts[i3].1 == b.rowMax
    requires forall k | 0 <= k < |pts| :: Contains(b, pts[k].0, pts[k].1)
    ensures Tight(Some(b), PointsOf(pts))
  {
    assert pts[i0] in PointsOf(pts) && pts[i1] in PointsOf(pts);
    assert pts[i2] in PointsOf(pts) && pts[i3] in PointsOf(pts);
    forall q | q in PointsOf(pts) ensures Contains(b, q.0, q.1) {
      var k :| 0 <= k < |pts| && pts[k] == q;
    }
  }

  /** A vertical run of lit pixels at x, one per row from row0 on. */
  function Column(x: int, row0: int, n: nat): seq<Pixel>
  {
    seq(n, i => Pixel(x, row0 + i, 15))
  }

  /** The `|` of the 6×10 font drawn at (0, 0): x = 2, rows 1 to 7. */
  function Bar(): seq<Pixel> { Column(2, 1, 7) }

  /** `single_char_one_col`: seven changes, box column-byte 1 and rows 1 to 7, and each of
      rows 1 to 7 starts with the bytes 0, 0xF0, 0. */
  lemma OneColumnScenario()
    ensures Draw(Blank(), Bar()).box == Some(Box(1, 1, 1, 7))
    ensures Draw(Blank(), Bar()).changed == 7
    ensures forall i :: 1 <= i < 8 ==> Draw(Blank(), Bar()).buffer[i * 128 .. i * 128 + 3] == [0, 0xF0, 0]
  {
    ColumnOnBlank(2, 1, 7);
    var buf := Draw(Blank(), Bar()).buffer;
    assert WriteNibble(0, 2, 15) == 0xF0;
    forall i | 1 <= i < 8 ensures buf[i * 128 .. i * 128 + 3] == [0, 0xF0, 0] {
      RowMajor(0, i);
      RowMajor(1, i);
      RowMajor(2, i);
    }
  }

  /** A column of n lit pixels drawn on a new driver: n changes, the box of its one
      column-byte and its rows, and the lit nibble in the byte of each of its rows. */
  lemma ColumnOnBlank(x: int, row0: int, n: nat)
    requires 0 <= x < Width && 0 <= row0 && 1 <= n && row0 + n <= Height
    ensures Draw(Blank(), Column(x, row0, n)).box == Some(Box(x / 2, x / 2, row0, row0 + n - 1))
    ensures Draw(Blank(), Column(x, row0, n)).changed == n
    ensures forall i | 0 <= i < BufferSize :: Draw(Blank(), Column(x, row0, n)).buffer[i] ==
              (if i % 128 == x / 2 && row0 <= i / 128 < row0 + n then WriteNibble(0, x, 15) else 0)
  {
    var ps := Column(x, row0, n);
    AllOnScreen(ps);
    var pts := OnScreenPoints(ps);
    var b := Box(x / 2, x / 2, row0, row0 + n - 1);
    assert pts[0] == (x / 2, row0) && pts[n - 1] == (x / 2, row0 + n - 1);
    TightFromWitnesses(pts, b, 0, 0, 0, n - 1);
    DrawOnBlank(ps, Some(b));
    DrawPaints(Blank(), ps);
    PaintColumn(Blank().buffer, x, row0, n);
  }

  /** Painting a column of lit pixels writes the lit nibble into the byte of each of its
      rows and leaves every other byte as it was. */
  lemma {:induction false} PaintColumn(buf: seq<bv8>, x: int, row0: int, n: nat)
    requires |buf| == BufferSize && 0 <= x < Width && 0 <= row0 && row0 + n <= Height
    ensures forall i | 0 <= i < BufferSize :: Paint(buf, Column(x, row0, n))[i] ==
              (if i % 128 == x / 2 && row0 <= i / 128 < row0 + n then WriteNibble(buf[i], x, 15) else buf[i])
    decreases n
  {
    if n > 0 {
      var ps := Column(x, row0, n);
      assert ps[..n - 1] == Column(x, row0, n - 1);
      PaintColumn(buf, x, row0, n - 1);
      var idx := Index(x, row0 + n - 1);
      forall i | 0 <= i < BufferSize && i != idx && i / 128 == row0 + n - 1
        ensures i % 128 != x / 2
      {
        assert i == i / 128 * 128 + i % 128;
        assert idx == idx / 128 * 128 + idx % 128;
      }
    }
  }

  /** The `A` of the 6×10 font drawn with its top-left corner at (dx, dy), row by row. */
  function GlyphA(dx: int, dy: int): seq<Pixel>
  {
    [Pixel(dx + 2, dy + 1, 15),
     Pixel(dx + 1, dy + 2, 15), Pixel(dx + 3, dy + 2, 15),
     Pixel(dx + 0, dy + 3, 15), Pixel(dx + 4, dy + 3, 15),
     Pixel(dx + 0, dy + 4, 15), Pixel(dx + 4, dy + 4, 15),
     Pixel(dx + 0, dy + 5, 15), Pixel(dx + 1, dy + 5, 15), Pixel(dx + 2, dy + 5, 15),
     Pixel(dx + 3, dy + 5, 15), Pixel(dx + 4, dy + 5, 15),
     Pixel(dx + 0, dy + 6, 15), Pixel(dx + 4, dy + 6, 15),
     Pixel(dx + 0, dy + 7, 15), Pixel(dx + 4, dy + 7, 15)]
  }

  /** The glyph's sixteen pixels are at distinct places and all lit. */
  lemma GlyphALit(dx: int, dy: int)
    ensures |GlyphA(dx, dy)| == 16
    ensures DistinctPositions(GlyphA(dx, dy))
    ensures forall i | 0 <= i < |GlyphA(dx, dy)| :: GlyphA(dx, dy)[i].color != 0
  {
  }

  /** OnScreenPoints of a sequence whose pixels are all on-screen: one point per pixel. */
  lemma {:induction false} AllOnScreen(ps: seq<Pixel>)
    requires forall i | 0 <= i < |ps| :: InBounds(ps[i].x, ps[i].y)
    ensures |OnScreenPoints(ps)| == |ps|
    ensures forall i | 0 <= i < |ps| :: OnScreenPoints(ps)[i] == (ps[i].x / 2, ps[i].y)
    decreases |ps|
  {
    if ps != [] {
      AllOnScreen(ps[1..]);
      assert InBounds(ps[0].x, ps[0].y);
    }
  }

  /** Drawn wholly on-screen onto a new driver, the glyph makes sixteen changes (the two
      pixels of one byte count twice) and its box spans column-bytes dx / 2 to
      (dx + 4) / 2 and rows dy + 1 to dy + 7. */
  lemma GlyphAOnScreen(dx: int, dy: int)
    requires 0 <= dx && dx + 4 < Width && 0 <= dy && dy + 7 < Height
    ensures Draw(Blank(), GlyphA(dx, dy)).changed == 16
    ensures Draw(Blank(), GlyphA(dx, dy)).box == Some(Box(dx / 2, (dx + 4) / 2, dy + 1, dy + 7))
  {
    var ps := GlyphA(dx, dy);
    var b := Box(dx / 2, (dx + 4) / 2, dy + 1, dy + 7);
    GlyphALit(dx, dy);
    AllOnScreen(ps);
    TightFromWitnesses(OnScreenPoints(ps), b, 3, 4, 0, 14);
    DrawOnBlank(ps, Some(b));
  }

  /** `single_char_multi_col`: sixteen changes, box column-bytes 0 to 2 and rows 1 to 7. */
  lemma MultiColumnScenario()
    ensures Draw(Blank(), GlyphA(0, 0)).box == Some(Box(0, 2, 1, 7))
    ensures Draw(Blank(), GlyphA(0, 0)).changed == 16
  {
    GlyphAOnScreen(0, 0);
  }

  /** `single_char_offset`: the glyph at (1, 5): sixteen changes, column-bytes 0 to 2,
      rows 6 to 12. */
  lemma OffsetScenario()
    ensures Draw(Blank(), GlyphA(1, 5)).box == Some(Box(0, 2, 6, 12))
    ensures Draw(Blank(), GlyphA(1, 5)).changed == 16
  {
    GlyphAOnScreen(1, 5);
  }

  /** The on-screen points of pixel p. */
  function HeadPoint(p: Pixel): seq<Point> {
    if InBounds(p.x, p.y) then [(p.x / 2, p.y)] else []
  }

  lemma OnScreenStep(ps: seq<Pixel>, k: nat)
    requires k < |ps|
    ensures OnScreenPoints(ps[k..]) == HeadPoint(ps[k]) + OnScreenPoints(ps[k + 1..])
  {
    assert ps[k..][1..] == ps[k + 1..];
  }

  lemma OnScreenChunk(ps: seq<Pixel>, k: nat)
    requires k + 4 <= |ps|
    ensures OnScreenPoints(ps[k..]) ==
      HeadPoint(ps[k]) + HeadPoint(ps[k + 1]) + HeadPoint(ps[k + 2]) + HeadPoint(ps[k + 3]) + OnScreenPoints(ps[k + 4..])
  {
    OnScreenStep(ps, k);
    OnScreenStep(ps, k + 1);
    OnScreenStep(ps, k + 2);
    OnScreenStep(ps, k + 3);
    var h0, h1, h2, h3 := HeadPoint(ps[k]), HeadPoint(ps[k + 1]), HeadPoint(ps[k + 2]), HeadPoint(ps[k + 3]);
    var rest := OnScreenPoints(ps[k + 4..]);
    Commands.Associative(h0, h1, h2 + (h3 + rest));
    Commands.Associative(h0 + h1, h2, h3 + rest);
    Commands.Associative(h0 + h1 + h2, h3, rest);
  }

  /** A glyph whose left stroke is in the last column and whose other pixels are past the
      right edge leaves only the five points of that stroke. */
  lemma ClippedPoints(ps: seq<Pixel>, dy: int)
    requires |ps| == 16 && 0 <= dy && dy + 7 < Height
    requires ps[0].x == 257 && ps[1].x == 256 && ps[2].x == 258 && ps[3] == Pixel(255, dy + 3, 15)
    requires ps[4].x == 259 && ps[5] == Pixel(255, dy + 4, 15) && ps[6].x == 259 && ps[7] == Pixel(255, dy + 5, 15)
    requires ps[8].x == 256 && ps[9].x == 257 && ps[10].x == 258 && ps[11].x == 259
    requires ps[12] == Pixel(255, dy + 6, 15) && ps[13].x == 259 && ps[14] == Pixel(255, dy + 7, 15) && ps[15].x == 259
    ensures OnScreenPoints(ps) == [(127, dy + 3), (127, dy + 4), (127, dy + 5), (127, dy + 6), (127, dy + 7)]
  {
    assert ps[16..] == [] && ps[0..] == ps;
    OnScreenChunk(ps, 12);
    OnScreenChunk(ps, 8);
    OnScreenChunk(ps, 4);
    OnScreenChunk(ps, 0);
  }

  /** The glyph drawn at the last column x = 255 of a new driver: five changes, all in
      the last column-byte, rows dy + 3 to dy + 7; the pixels past the edge are dropped. */
  lemma GlyphAClipped(dx: int, dy: int)
    requires dx == Width - 1 && 0 <= dy && dy + 7 < Height
    ensures Draw(Blank(), GlyphA(dx, dy)).changed == 5
    ensures Draw(Blank(), GlyphA(dx, dy)).box == Some(Box(127, 127, dy + 3, dy + 7))
  {
    var ps := GlyphA(dx, dy);
    GlyphALit(dx, dy);
    ClippedPoints(ps, dy);
    TightFromWitnesses(OnScreenPoints(ps), Box(127, 127, dy + 3, dy + 7), 0, 0, 0, 4);
    DrawOnBlank(ps, Some(Box(127, 127, dy + 3, dy + 7)));
  }

  /** `single_char_clipped`: the glyph at (255, 0): five changes, column-byte 127, rows
      3 to 7. */
  lemma ClippedScenario()
    ensures Draw(Blank(), GlyphA(255, 0)).box == Some(Box(127, 127, 3, 7))
    ensures Draw(Blank(), GlyphA(255, 0)).changed == 5
  {
    GlyphAClipped(255, 0);
  }

  /** The last pixel of row 0, then the first: the box spans every column-byte of row 0. */
  lemma OppositeCornersScenario()
    ensures Draw(Blank(), [Pixel(255, 0, 15), Pixel(0, 0, 15)]).box == Some(Box(0, 127, 0, 0))
    ensures Draw(Blank(), [Pixel(255, 0, 15), Pixel(0, 0, 15)]).changed == 2
  {
    var ps := [Pixel(255, 0, 15), Pixel(0, 0, 15)];
    assert ps[1..] == [Pixel(0, 0, 15)] && ps[1..][1..] == [];
    var pts := OnScreenPoints(ps);
    assert pts == [(127, 0), (0, 0)];
    TightFromWitnesses(pts, Box(0, 127, 0, 0), 1, 0, 0, 0);
    DrawOnBlank(ps, Some(Box(0, 127, 0, 0)));
  }

  /** With a bus that never fails, every row transfer is sent. */
  lemma {:induction false} NoFaults(start: nat, n: nat)
    ensures FirstError(map[], start, n) == n
    decreases n
  {
    if n > 0 {
      NoFaults(start + 1, n - 1);
    }
  }

  /** The window of a partial flush of the bar's box: column-byte 0 and the one after it,
      at controller column 0x1C, rows 1 to 7. */
  lemma BarWindow(b: Box)
    requires b == Box(1, 1, 1, 7)
    ensures FlushWindow(b) == Window(0, 0, 2)
    ensures WindowSetup(b) == [Cmd([0x15]), Data([0x1C, 0x1C]), Cmd([0x75]), Data([0x01, 0x07]), Cmd([0x5C])]
  {
    WindowAddresses(b);
    assert ByteOf(0x1C) == 0x1C;
    assert ColumnAddress(0) == ByteOf(0x1C);
    assert RowAddress(1) == ByteOf(1) && RowAddress(7) == ByteOf(7);
  }

  /** The bar's seven rows, two bytes each: the untouched byte 0 and the lit 0xF0. */
  lemma BarRows(w: Window, buf: seq<bv8>)
    requires w == Window(0, 0, 2) && |buf| == BufferSize
    requires forall i :: 1 <= i < 8 ==> buf[i * 128 .. i * 128 + 3] == [0, 0xF0, 0]
    ensures RowTransfers(w, 1, buf, 7) == seq(7, _ => Data([0x00, 0xF0]))
  {
    forall k | 0 <= k < 7 ensures RowTransfers(w, 1, buf, 7)[k] == Data([0x00, 0xF0]) {
      RowTransferAt(w, 1, buf, 7, k);
      var i := 1 + k;
      assert RowSlice(w, buf, i) == buf[i * 128 .. i * 128 + 3][..2];
    }
  }

  /** The traffic and result of the bar's flush over a bus that never fails: the window
      and all seven rows. */
  lemma BarFlushOk(faults: map<nat, DisplayError>, b: Box, buf: seq<bv8>, t0: seq<Event>, trace: seq<Event>, r: Outcome)
    requires faults == map[] && b == Box(1, 1, 1, 7) && |buf| == BufferSize
    requires forall i :: 1 <= i < 8 ==> buf[i * 128 .. i * 128 + 3] == [0, 0xF0, 0]
    requires t0 == [] && trace == t0 + FlushEvents(faults, |t0|, b, buf) && r == FlushOutcome(faults, |t0|, b)
    ensures trace ==
      [Cmd([0x15]), Data([0x1C, 0x1C]), Cmd([0x75]), Data([0x01, 0x07]), Cmd([0x5C])] + seq(7, _ => Data([0x00, 0xF0]))
    ensures r == Ok
  {
    BarWindow(b);
    BarRows(FlushWindow(b), buf);
    NoFaults(5, 7);
    RowsAllOk(faults, 5, 7);
  }

  /** The bar drawn on a new driver and flushed over a bus that never fails: the column
      window 0x1C..0x1C, rows 1..7, write-RAM, then seven two-byte rows; afterwards the
      box is gone and the counter is 0. */
  method OneColumnFlush() returns (trace: seq<Event>, r: Outcome, box: Option<Box>, changed: nat)
    ensures r == Ok && box == None && changed == 0
    ensures trace == [Cmd([0x15]), Data([0x1C, 0x1C]), Cmd([0x75]), Data([0x01, 0x07]), Cmd([0x5C])]
      + seq(7, _ => Data([0x00, 0xF0]))
  {
    var bus := new Interface(map[]);
    var disp := new Ssd1322(bus);
    assert disp.State() == Blank();
    disp.DrawIter(Bar());
    OneColumnScenario();
    ghost var c := disp.State();
    ghost var t0 := bus.trace;
    r := disp.Flush();
    trace, box, changed := bus.trace, disp.boundingBox, disp.numChanged;
    assert disp.buffer[..] == c.buffer;
    BarFlushOk(bus.faults, c.box.value, c.buffer, t0, trace, r);
  }

  /** The traffic and result of the bar's flush when the bus fails at trace position 7,
      the third row: the window, three rows, and that row's error. */
  lemma BarFlushFailing(faults: map<nat, DisplayError>, b: Box, buf: seq<bv8>, t0: seq<Event>, trace: seq<Event>, r: Outcome)
    requires faults == map[7 := BusWriteError] && b == Box(1, 1, 1, 7) && |buf| == BufferSize
    requires forall i :: 1 <= i < 8 ==> buf[i * 128 .. i * 128 + 3] == [0, 0xF0, 0]
    requires t0 == [] && trace == t0 + FlushEvents(faults, |t0|, b, buf) && r == FlushOutcome(faults, |t0|, b)
    ensures trace ==
      [Cmd([0x15]), Data([0x1C, 0x1C]), Cmd([0x75]), Data([0x01, 0x07]), Cmd([0x5C])] + seq(3, _ => Data([0x00, 0xF0]))
    ensures r == Err(BusWriteError)
  {
    BarWindow(b);
    var w := FlushWindow(b);
    BarRows(w, buf);
    FirstErrorAt(faults, 5, 7, 2);
    assert SentRows(faults, 5, Rows(b)) == 3;
    forall k | 0 <= k < 3 ensures RowTransfers(w, 1, buf, 3)[k] == Data([0x00, 0xF0]) {
      RowTransferAt(w, 1, buf, 3, k);
      RowTransferAt(w, 1, buf, 7, k);
    }
  }

  /** The same, over a bus whose transfer at position 7 (the third row) fails: the flush
      stops after that row, returns its error and keeps the box and the counter. */
  method OneColumnFlushFails() returns (trace: seq<Event>, r: Outcome, box: Option<Box>, changed: nat)
    ensures r == Err(BusWriteError) && box == Some(Box(1, 1, 1, 7)) && changed == 7
    ensures trace == [Cmd([0x15]), Data([0x1C, 0x1C]), Cmd([0x75]), Data([0x01, 0x07]), Cmd([0x5C])]
      + seq(3, _ => Data([0x00, 0xF0]))
  {
    var bus := new Interface(map[7 := BusWriteError]);
    var disp := new Ssd1322(bus);
    assert disp.State() == Blank();
    disp.DrawIter(Bar());
    OneColumnScenario();
    ghost var c := disp.State();
    ghost var t0 := bus.trace;
    r := disp.Flush();
    trace, box, changed := bus.trace, disp.boundingBox, disp.numChanged;
    assert disp.buffer[..] == c.buffer;
    BarFlushFailing(bus.faults, c.box.value, c.buffer, t0, trace, r);
  }

  /** A partial flush of a new driver, with nothing drawn, sends nothing. */
  method EmptyFlush() returns (trace: seq<Event>, r: Outcome)
    ensures r == Ok && trace == []
  {
    var bus := new Interface(map[]);
    var disp := new Ssd1322(bus);
    r := disp.Flush();
    trace := bus.trace;
  }

  /** A clear to g followed by a full flush sends the full window and then 8192 bytes,
      each with both nibbles g, whatever the box says. */
  method ClearThenFlushAll(g: Gray4) returns (trace: seq<Event>, r: Outcome)
    ensures r == Ok
    ensures trace == [Cmd([0x15]), Data([0x1C, 0x5B]), Cmd([0x75]), Data([0x00, 0x3F]), Cmd([0x5C]),
                      Data(seq(BufferSize, _ => ClearByte(g)))]
  {
    var bus := new Interface(map[]);
    var disp := new Ssd1322(bus);
    disp.DrawIter(Bar());
    disp.Clear(g);
    assert disp.buffer[..] == seq(BufferSize, _ => ClearByte(g));
    FullWindowTransfers();
    r := disp.FlushAll();
    trace := bus.trace;
  }
}
