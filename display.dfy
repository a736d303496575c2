/** The SSD1322 driver: a 256×64 4-bit framebuffer with dirty-box tracking, drawn into
    pixel by pixel and pushed to the controller either whole or as the dirty rectangle. */
module Display {
  import opened Wrappers
  import opened DisplayInterface
  import opened Commands
  import opened Framebuffer
  import opened BoundingBox

  // ---------------------------------------------------------------------------------
  // Drawing, as a function of the buffer, the box and the change counter
  // ---------------------------------------------------------------------------------

  /** One pixel handed to `draw_iter`: a coordinate that may be off-screen and a gray level. */
  datatype Pixel = Pixel(x: int, y: int, color: Gray4)

  /** The part of the driver's state that drawing reads and writes. */
  datatype Canvas = Canvas(buffer: seq<bv8>, box: Option<Box>, changed: nat)

  /** Whether drawing `p` changes a byte of `buf`: it is on-screen and the new byte
      differs from the stored one. */
  predicate Changes(buf: seq<bv8>, p: Pixel)
    requires |buf| == BufferSize
  {
    InBounds(p.x, p.y) && WriteNibble(buf[Index(p.x, p.y)], p.x, p.color) != buf[Index(p.x, p.y)]
  }

  /** One iteration of `draw_iter`: off-screen pixels and writes that leave the byte as it
      was record nothing; any other write stores the new byte, counts one change and
      widens the box by the pixel's column-byte and row. */
  function DrawPixel(c: Canvas, p: Pixel): (r: Canvas)
    requires |c.buffer| == BufferSize
    ensures |r.buffer| == BufferSize
  {
    if !Changes(c.buffer, p) then c
    else
      var i := Index(p.x, p.y);
      Canvas(c.buffer[i := WriteNibble(c.buffer[i], p.x, p.color)],
             Some(Touch(c.box, p.x / 2, p.y)), c.changed + 1)
  }

  /** `draw_iter` over a whole pixel sequence, in order. */
  function Draw(c: Canvas, ps: seq<Pixel>): (r: Canvas)
    requires |c.buffer| == BufferSize
    ensures |r.buffer| == BufferSize
    decreases |ps|
  {
    if ps == [] then c else DrawPixel(Draw(c, ps[..|ps| - 1]), ps[|ps| - 1])
  }

  /** The (column-byte, row) of every write of `ps` that changed a byte, in order. */
  function ChangeLog(c: Canvas, ps: seq<Pixel>): seq<Point>
    requires |c.buffer| == BufferSize
    decreases |ps|
  {
    if ps == [] then []
    else
      var p := ps[|ps| - 1];
      ChangeLog(c, ps[..|ps| - 1]) + if Changes(Draw(c, ps[..|ps| - 1]).buffer, p) then [(p.x / 2, p.y)] else []
  }

  function PointsOf(log: seq<Point>): set<Point> {
    set p | p in log
  }

  /** Drawing one pixel: off-screen it changes nothing; on-screen the buffer becomes the
      buffer with that pixel written, and a change is recorded exactly when the pixel
      did not already have that color. */
  lemma DrawPixelEffect(c: Canvas, p: Pixel)
    requires |c.buffer| == BufferSize
    ensures !InBounds(p.x, p.y) ==> DrawPixel(c, p) == c
    ensures InBounds(p.x, p.y) ==> DrawPixel(c, p).buffer == SetPixel(c.buffer, p.x, p.y, p.color)
    ensures Changes(c.buffer, p) <==> InBounds(p.x, p.y) && PixelAt(c.buffer, p.x, p.y) != p.color
    ensures !Changes(c.buffer, p) ==> DrawPixel(c, p) == c
    ensures Changes(c.buffer, p) ==>
      DrawPixel(c, p).changed == c.changed + 1 && DrawPixel(c, p).box == Some(Touch(c.box, p.x / 2, p.y))
  {
    if InBounds(p.x, p.y) {
      var i := Index(p.x, p.y);
      WriteNibbleUnchangedIff(c.buffer[i], p.x, p.color);
      if !Changes(c.buffer, p) {
        assert c.buffer[i := WriteNibble(c.buffer[i], p.x, p.color)] == c.buffer;
      }
    }
  }

  /** Drawing one more pixel of `ps`: Draw and ChangeLog grow by that pixel's step. */
  lemma {:induction false} DrawStep(c: Canvas, ps: seq<Pixel>, i: nat)
    requires |c.buffer| == BufferSize && i < |ps|
    ensures Draw(c, ps[..i + 1]) == DrawPixel(Draw(c, ps[..i]), ps[i])
    ensures PointsOf(ChangeLog(c, ps[..i + 1])) == PointsOf(ChangeLog(c, ps[..i]))
      + PointsOf(if Changes(Draw(c, ps[..i]).buffer, ps[i]) then [(ps[i].x / 2, ps[i].y)] else [])
  {
    assert ps[..i + 1][..i] == ps[..i];
    var log := ChangeLog(c, ps[..i]);
    var tail: seq<Point> := if Changes(Draw(c, ps[..i]).buffer, ps[i]) then [(ps[i].x / 2, ps[i].y)] else [];
    assert ChangeLog(c, ps[..i + 1]) == log + tail;
    assert PointsOf(log + tail) == PointsOf(log) + PointsOf(tail);
  }

  /** Drawing only off-screen pixels, negative coordinates included, changes nothing. */
  lemma {:induction false} DrawOffScreen(c: Canvas, ps: seq<Pixel>)
    requires |c.buffer| == BufferSize
    requires forall i :: 0 <= i < |ps| ==> !InBounds(ps[i].x, ps[i].y)
    ensures Draw(c, ps) == c
    decreases |ps|
  {
    if ps != [] {
      DrawOffScreen(c, ps[..|ps| - 1]);
    }
  }

  /** Drawing into `buf` without any change tracking: every on-screen pixel is written. */
  function Paint(buf: seq<bv8>, ps: seq<Pixel>): (r: seq<bv8>)
    requires |buf| == BufferSize
    ensures |r| == BufferSize
    decreases |ps|
  {
    if ps == [] then buf
    else
      var before := Paint(buf, ps[..|ps| - 1]);
      var p := ps[|ps| - 1];
      if InBounds(p.x, p.y) then SetPixel(before, p.x, p.y, p.color) else before
  }

  /** Skipping the writes that change nothing does not alter the image: the buffer
      `draw_iter` leaves is the one plain painting leaves. */
  lemma {:induction false} DrawPaints(c: Canvas, ps: seq<Pixel>)
    requires |c.buffer| == BufferSize
    ensures Draw(c, ps).buffer == Paint(c.buffer, ps)
    decreases |ps|
  {
    if ps != [] {
      DrawPaints(c, ps[..|ps| - 1]);
      DrawPixelEffect(Draw(c, ps[..|ps| - 1]), ps[|ps| - 1]);
    }
  }

  /** The counter rises by one per recorded change, and by nothing else. */
  lemma {:induction false} DrawCounts(c: Canvas, ps: seq<Pixel>)
    requires |c.buffer| == BufferSize
    ensures Draw(c, ps).changed == c.changed + |ChangeLog(c, ps)|
    decreases |ps|
  {
    if ps != [] {
      DrawCounts(c, ps[..|ps| - 1]);
    }
  }

  /** Every recorded change lies on the framebuffer. */
  lemma {:induction false} ChangeLogOnScreen(c: Canvas, ps: seq<Pixel>)
    requires |c.buffer| == BufferSize
    ensures forall q | q in ChangeLog(c, ps) :: 0 <= q.0 < BytesPerRow && 0 <= q.1 < Height
    decreases |ps|
  {
    if ps != [] {
      ChangeLogOnScreen(c, ps[..|ps| - 1]);
    }
  }

  /** If the box was exactly the min/max of the points `s`, after drawing it is exactly
      the min/max of `s` and every point a write of `ps` changed. */
  lemma {:induction false} DrawKeepsTight(c: Canvas, ps: seq<Pixel>, s: set<Point>)
    requires |c.buffer| == BufferSize
    requires Tight(c.box, s)
    ensures Tight(Draw(c, ps).box, s + PointsOf(ChangeLog(c, ps)))
    decreases |ps|
  {
    if ps != [] {
      var init := ps[..|ps| - 1];
      var p := ps[|ps| - 1];
      DrawKeepsTight(c, init, s);
      var before := Draw(c, init);
      var s0 := s + PointsOf(ChangeLog(c, init));
      if Changes(before.buffer, p) {
        TouchKeepsTight(before.box, s0, p.x / 2, p.y);
        assert s + PointsOf(ChangeLog(c, ps)) == s0 + {(p.x / 2, p.y)};
      } else {
        assert ChangeLog(c, ps) == ChangeLog(c, init);
      }
    }
  }

  /** Starting from no box, the box after drawing is the min/max of the column-bytes and
      rows of the changed writes, whatever their order: any box that is tight for those
      points is this one, and it is well-formed. */
  lemma DrawBoxIsMinMax(buf: seq<bv8>, n: nat, ps: seq<Pixel>, box: Option<Box>)
    requires |buf| == BufferSize
    requires Tight(box, PointsOf(ChangeLog(Canvas(buf, None, n), ps)))
    ensures Draw(Canvas(buf, None, n), ps).box == box
    ensures Bounded(box)
  {
    var c := Canvas(buf, None, n);
    var s := PointsOf(ChangeLog(c, ps));
    DrawKeepsTight(c, ps, {});
    assert {} + s == s;
    TightUnique(Draw(c, ps).box, box, s);
    ChangeLogOnScreen(c, ps);
    TightIsBounded(box, s);
  }

  // ---------------------------------------------------------------------------------
  // The partial-flush window
  // ---------------------------------------------------------------------------------

  /** The rounded column-byte bounds of a partial flush and the bytes sent per row. */
  datatype Window = Window(col0: int, col1: int, rowBytes: int)

  /** Both column-byte bounds rounded down to even; each row sends from the first through
      the byte after the second. The window still holds every dirty column-byte, stays
      inside a row, and its controller column addresses lie in 0x1C..0x5B. */
  function FlushWindow(b: Box): (w: Window)
    requires WellFormed(b)
    ensures w.col0 % 2 == 0 && w.col1 % 2 == 0
    ensures w.rowBytes == w.col1 - w.col0 + 2
    ensures 0 <= w.col0 <= b.colMin && b.colMax < w.col0 + w.rowBytes <= BytesPerRow
    ensures 0 <= b.colMin - w.col0 <= 1 && 0 <= b.colMax - w.col1 <= 1
    ensures 0x1C <= w.col0 / 2 + 0x1C <= w.col1 / 2 + 0x1C <= 0x5B
  {
    var col0 := b.colMin - b.colMin % 2;
    var col1 := b.colMax - b.colMax % 2;
    Window(col0, col1, col1 - col0 + 2)
  }

  /** Rounding both bounds down to even determines the window: any window with even
      ends at most one below the box's bounds, and the row length that spans them, is
      the one a flush uses. */
  lemma FlushWindowUnique(b: Box, w: Window)
    requires WellFormed(b)
    requires w.col0 % 2 == 0 && w.col1 % 2 == 0 && w.rowBytes == w.col1 - w.col0 + 2
    requires 0 <= b.colMin - w.col0 <= 1 && 0 <= b.colMax - w.col1 <= 1
    ensures w == FlushWindow(b)
  {
  }

  /** A window a flush can send: it starts inside a row and does not run past its end. */
  predicate Fits(w: Window) {
    0 <= w.col0 && 0 <= w.rowBytes && w.col0 + w.rowBytes <= BytesPerRow
  }

  /** The byte whose value is n, built from its bits. The solver reasons about this
      recursion far more cheaply than about the cast `n as bv8` of a symbolic integer. */
  function ByteOf(n: int): bv8
    requires 0 <= n < 256
    decreases n
  {
    if n < 2 then (if n == 0 then 0 else 1) else ByteOf(n / 2) * 2 + ByteOf(n % 2)
  }

  lemma {:induction false} ByteOfValue(n: int)
    requires 0 <= n < 256
    ensures ByteOf(n) as int == n
    decreases n
  {
    if n >= 2 {
      ByteOfValue(n / 2);
      ByteOfValue(n % 2);
    }
  }

  /** The controller column address of an even column-byte: the panel's 256 pixels sit
      at controller columns 0x1C..0x5B, four pixels (two column-bytes) per address. */
  function ColumnAddress(colByte: int): bv8
    requires 0 <= colByte < BytesPerRow
  {
    ByteOf(colByte / 2 + 0x1C)
  }

  /** A row, as the byte the row-address command takes. */
  function RowAddress(row: int): bv8
    requires 0 <= row < Height
  {
    ByteOf(row)
  }

  /** The address parameters of a partial flush: the column addresses of the rounded
      window, in order and inside 0x1C..0x5B, and the box's first and last rows. */
  lemma WindowAddresses(b: Box)
    requires WellFormed(b)
    ensures ColumnAddress(FlushWindow(b).col0) as int == FlushWindow(b).col0 / 2 + 0x1C
    ensures ColumnAddress(FlushWindow(b).col1) as int == FlushWindow(b).col1 / 2 + 0x1C
    ensures 0x1C <= ColumnAddress(FlushWindow(b).col0) as int <= ColumnAddress(FlushWindow(b).col1) as int <= 0x5B
    ensures RowAddress(b.rowMin) as int == b.rowMin && RowAddress(b.rowMax) as int == b.rowMax
  {
    var w := FlushWindow(b);
    ColumnAddressValue(w.col0);
    ColumnAddressValue(w.col1);
    ByteOfValue(b.rowMin);
    ByteOfValue(b.rowMax);
  }

  /** The value of a column address. */
  lemma ColumnAddressValue(colByte: int)
    requires 0 <= colByte < BytesPerRow
    ensures ColumnAddress(colByte) as int == colByte / 2 + 0x1C
  {
    ByteOfValue(colByte / 2 + 0x1C);
  }

  /** The window-setting commands a partial flush sends, in controller units. */
  function WindowCommands(b: Box): (r: seq<Command>)
    requires WellFormed(b)
    ensures |r| == 3 && r[0].SetColumnAddress? && r[1].SetRowAddress? && r[2] == WriteRAM
  {
    var w := FlushWindow(b);
    [SetColumnAddress(ColumnAddress(w.col0), ColumnAddress(w.col1)),
     SetRowAddress(RowAddress(b.rowMin), RowAddress(b.rowMax)),
     WriteRAM]
  }

  /** The five transfers that set the window of a partial flush of `b`: the
      column-address opcode and the two column addresses, the row-address opcode and
      the two rows, and the write-RAM opcode. */
  function WindowSetup(b: Box): seq<Event>
    requires WellFormed(b)
  {
    var w := FlushWindow(b);
    [Cmd([0x15]), Data([ColumnAddress(w.col0), ColumnAddress(w.col1)]),
     Cmd([0x75]), Data([RowAddress(b.rowMin), RowAddress(b.rowMax)]),
     Cmd([0x5C])]
  }

  /** The number of rows of a box. */
  function Rows(b: Box): int {
    b.rowMax - b.rowMin + 1
  }

  /** The bytes a flush through window `w` sends for `row`: rowBytes bytes of that row
      from column-byte col0 on. */
  function RowSlice(w: Window, buf: seq<bv8>, row: int): (s: seq<bv8>)
    requires Fits(w) && |buf| == BufferSize && 0 <= row < Height
    ensures |s| == w.rowBytes
  {
    buf[w.col0 + row * 128 .. w.col0 + row * 128 + w.rowBytes]
  }

  /** The data transfers of the `n` rows from row0 on of a flush through `w`, top to bottom. */
  function RowTransfers(w: Window, row0: int, buf: seq<bv8>, n: nat): (r: seq<Event>)
    requires Fits(w) && |buf| == BufferSize && 0 <= row0 && row0 + n <= Height
    ensures |r| == n
  {
    if n == 0 then [] else RowTransfers(w, row0, buf, n - 1) + [Data(RowSlice(w, buf, row0 + n - 1))]
  }

  /** The window-setting commands of a full flush: the whole 256×64 area. */
  const FullWindow: seq<Command> := [SetColumnAddress(0x1C, 0x5B), SetRowAddress(0x00, 0x3F), WriteRAM]

  /** Three commands sent one after the other. */
  lemma TransmitThree(c1: Command, c2: Command, c3: Command)
    ensures Transmit([c1, c2, c3]) == Transfers(c1) + Transfers(c2) + Transfers(c3)
  {
    TransmitCons(c3, []);
    TransmitCons(c2, [c3]);
    TransmitCons(c1, [c2, c3]);
    assert [c3] + [] == [c3] && [c2] + [c3] == [c2, c3] && [c1] + [c2, c3] == [c1, c2, c3];
    Associative(Transfers(c1), Transfers(c2), Transfers(c3));
  }

  /** The transfers of the window-setting commands. */
  lemma WindowCommandTransfers(a: bv8, b: bv8)
    ensures Transfers(SetColumnAddress(a, b)) == [Cmd([0x15]), Data([a, b])]
    ensures Transfers(SetRowAddress(a, b)) == [Cmd([0x75]), Data([a, b])]
    ensures Transfers(WriteRAM) == [Cmd([0x5C])]
  {
    var e := Encode(SetColumnAddress(a, b));
    assert e[0..1] == [0x15] && e[1..] == [a, b];
    e := Encode(SetRowAddress(a, b));
    assert e[0..1] == [0x75] && e[1..] == [a, b];
    e := Encode(WriteRAM);
    assert e[0..1] == [0x5C];
  }

  /** A window of column addresses c0..c1 and rows r0..r1 is set by five transfers: the
      column-address opcode and its two addresses, the row-address opcode and its two
      rows, and the write-RAM opcode. */
  lemma WindowTransfers(c0: bv8, c1: bv8, r0: bv8, r1: bv8)
    ensures Transmit([SetColumnAddress(c0, c1), SetRowAddress(r0, r1), WriteRAM]) ==
      [Cmd([0x15]), Data([c0, c1]), Cmd([0x75]), Data([r0, r1]), Cmd([0x5C])]
  {
    TransmitThree(SetColumnAddress(c0, c1), SetRowAddress(r0, r1), WriteRAM);
    WindowCommandTransfers(c0, c1);
    WindowCommandTransfers(r0, r1);
  }

  /** WindowSetup is the transmission of the window-setting commands. */
  lemma WindowSetupSendsCommands(b: Box)
    requires WellFormed(b)
    ensures Transmit(WindowCommands(b)) == WindowSetup(b)
  {
    var w := FlushWindow(b);
    WindowTransfers(ColumnAddress(w.col0), ColumnAddress(w.col1), RowAddress(b.rowMin), RowAddress(b.rowMax));
  }

  /** The window a full flush sets, as five transfers. */
  lemma FullWindowTransfers()
    ensures Transmit(FullWindow) ==
      [Cmd([0x15]), Data([0x1C, 0x5B]), Cmd([0x75]), Data([0x00, 0x3F]), Cmd([0x5C])]
  {
    WindowTransfers(0x1C, 0x5B, 0x00, 0x3F);
  }

  /** Appending the next row's transfer to a trace extends its row transfers by one. */
  lemma {:induction false} RowTransfersSnoc(t: seq<Event>, w: Window, row0: int, buf: seq<bv8>, k: nat)
    requires Fits(w) && |buf| == BufferSize && 0 <= row0 && row0 + k < Height
    ensures t + RowTransfers(w, row0, buf, k) + [Data(RowSlice(w, buf, row0 + k))]
      == t + RowTransfers(w, row0, buf, k + 1)
  {
    Associative(t, RowTransfers(w, row0, buf, k), [Data(RowSlice(w, buf, row0 + k))]);
  }

  /** Transfer k carries the slice of row row0 + k. */
  lemma {:induction false} RowTransferAt(w: Window, row0: int, buf: seq<bv8>, n: nat, k: nat)
    requires Fits(w) && |buf| == BufferSize && 0 <= row0 && row0 + n <= Height && k < n
    ensures RowTransfers(w, row0, buf, n)[k] == Data(RowSlice(w, buf, row0 + k))
    decreases n
  {
    if k < n - 1 {
      RowTransferAt(w, row0, buf, n - 1, k);
    }
  }

  /** A partial flush transmits the current value of every byte of the box: the byte
      at (col, row) is in the transfer of `row`, at its offset from the rounded start. */
  lemma {:induction false} FlushSendsDirtyBytes(b: Box, buf: seq<bv8>, col: int, row: int)
    requires WellFormed(b) && |buf| == BufferSize && Contains(b, col, row)
    ensures Fits(FlushWindow(b))
    ensures 0 <= row - b.rowMin < Rows(b)
    ensures 0 <= col - FlushWindow(b).col0 < FlushWindow(b).rowBytes
    ensures RowTransfers(FlushWindow(b), b.rowMin, buf, Rows(b))[row - b.rowMin] == Data(RowSlice(FlushWindow(b), buf, row))
    ensures RowSlice(FlushWindow(b), buf, row)[col - FlushWindow(b).col0] == buf[col + row * 128]
  {
    var w := FlushWindow(b);
    RowTransferAt(w, b.rowMin, buf, Rows(b), row - b.rowMin);
  }

  /** A box covering the whole panel. */
  const FullBox: Box := Box(0, 127, 0, 63)

  /** All the bytes of a sequence of transfers, in order. */
  function Payload(evs: seq<Event>): seq<bv8> {
    if evs == [] then [] else Payload(evs[..|evs| - 1]) + evs[|evs| - 1].bytes
  }

  /** Appending a transfer appends its bytes. */
  lemma PayloadSnoc(evs: seq<Event>, e: Event)
    ensures Payload(evs + [e]) == Payload(evs) + e.bytes
  {
    assert (evs + [e])[..|evs|] == evs;
  }

  /** The window of the full-panel box: every column-byte of a row. */
  const FullRow: Window := Window(0, 126, 128)

  /** The first n rows through the full-row window carry exactly the first n rows of
      the buffer. */
  lemma {:induction false} FullRowsPayload(buf: seq<bv8>, n: nat)
    requires |buf| == BufferSize && n <= 64
    ensures Payload(RowTransfers(FullRow, 0, buf, n)) == buf[..n * 128]
    decreases n
  {
    if n > 0 {
      var k := n - 1;
      FullRowsPayload(buf, k);
      PayloadSnoc(RowTransfers(FullRow, 0, buf, k), Data(RowSlice(FullRow, buf, k)));
      assert buf[..k * 128 + 128] == buf[..k * 128] + buf[k * 128 .. k * 128 + 128];
    }
  }

  /** A box spanning all 128 column-bytes is flushed through the full-row window. */
  lemma FullWidthWindow(b: Box)
    requires b.colMin == 0 && b.colMax == 127 && 0 <= b.rowMin <= b.rowMax < Height
    ensures WellFormed(b) && FlushWindow(b) == Window(0, 126, 128)
  {
    assert b.colMax % 2 == 1;
  }

  /** A partial flush of the full-panel box sets the same window as a full flush. */
  lemma FullBoxWindow()
    ensures WellFormed(FullBox) && FlushWindow(FullBox) == FullRow
    ensures FullBox.rowMin == 0 && Rows(FullBox) == 64
  {
    FullWidthWindow(FullBox);
  }

  /** The controller addresses of the full panel's corners. */
  lemma FullBoxAddresses()
    ensures ColumnAddress(0) == 0x1C && ColumnAddress(126) == 0x5B
    ensures RowAddress(0) == 0 && RowAddress(63) == 0x3F
  {
    assert ByteOf(0x1C) == 0x1C && ByteOf(0x5B) == 0x5B && ByteOf(0) == 0 && ByteOf(63) == 0x3F;
  }

  /** ... with the same commands. */
  lemma FullBoxCommands()
    ensures WindowCommands(FullBox) == FullWindow
  {
    FullBoxWindow();
    FullBoxAddresses();
  }

  /** ... and sends the same bytes, split into one transfer per row. */
  lemma FullRowsAll(buf: seq<bv8>)
    requires |buf| == BufferSize
    ensures Payload(RowTransfers(FullRow, 0, buf, 64)) == buf
  {
    FullRowsPayload(buf, 64);
  }

  /** How many transfers, starting at trace position `start`, succeed before the first
      failure among the next `n` (n when none fails). */
  function FirstError(faults: map<nat, DisplayError>, start: nat, n: nat): (k: nat)
    ensures k <= n
    decreases n
  {
    if n == 0 || Response(faults, start).Err? then 0 else 1 + FirstError(faults, start + 1, n - 1)
  }

  /** Every transfer before position FirstError succeeds, and the one there fails. */
  lemma {:induction false} FirstErrorSpec(faults: map<nat, DisplayError>, start: nat, n: nat)
    ensures forall j :: start <= j < start + FirstError(faults, start, n) ==> Response(faults, j).Ok?
    ensures FirstError(faults, start, n) < n ==> Response(faults, start + FirstError(faults, start, n)).Err?
    decreases n
  {
    if n > 0 && Response(faults, start).Ok? {
      FirstErrorSpec(faults, start + 1, n - 1);
    }
  }

  /** FirstError is the position of the first failure and nothing else. */
  lemma {:induction false} FirstErrorAt(faults: map<nat, DisplayError>, start: nat, n: nat, k: nat)
    requires k <= n
    requires forall j :: start <= j < start + k ==> Response(faults, j).Ok?
    requires k < n ==> Response(faults, start + k).Err?
    ensures FirstError(faults, start, n) == k
    decreases n
  {
    if k > 0 {
      assert Response(faults, start).Ok?;
      FirstErrorAt(faults, start + 1, n - 1, k - 1);
    }
  }

  /** Looking at one more transfer: the first failure stays where it was, or the new
      transfer is the first failure, or all succeed. */
  lemma {:induction false} FirstErrorSnoc(faults: map<nat, DisplayError>, start: nat, k: nat)
    ensures FirstError(faults, start, k + 1) ==
      if FirstError(faults, start, k) < k then FirstError(faults, start, k)
      else if Response(faults, start + k).Ok? then k + 1 else k
    decreases k
  {
    if k > 0 && Response(faults, start).Ok? {
      FirstErrorSnoc(faults, start + 1, k - 1);
    }
  }

  /** Once a failure is found among the first m transfers, looking further changes nothing. */
  lemma {:induction false} FirstErrorExtend(faults: map<nat, DisplayError>, start: nat, m: nat, n: nat)
    requires m <= n && FirstError(faults, start, m) < m
    ensures FirstError(faults, start, n) == FirstError(faults, start, m)
    decreases m
  {
    if Response(faults, start).Ok? {
      FirstErrorExtend(faults, start + 1, m - 1, n - 1);
    }
  }

  /** How many of `rows` row transfers, the first at trace position `start`, a flush
      issues: all of them when none fails, otherwise up to and including the first that
      fails, since the `?` after each one returns at once. */
  function SentRows(faults: map<nat, DisplayError>, start: nat, rows: nat): nat
    requires rows >= 1
  {
    var k := FirstError(faults, start, rows);
    if k == rows then rows else k + 1
  }

  /** The row loop after k successful row transfers when transfer k fails: k + 1 rows
      were sent, the last of them this one. */
  lemma {:induction false} RowsFailAt(faults: map<nat, DisplayError>, t0: seq<Event>, w: Window, row0: int, buf: seq<bv8>,
                   k: nat, rows: nat)
    requires Fits(w) && |buf| == BufferSize && 0 <= row0 && row0 + rows <= Height && k < rows
    requires FirstError(faults, |t0|, k) == k && Response(faults, |t0| + k).Err?
    ensures SentRows(faults, |t0|, rows) == k + 1
    ensures t0 + RowTransfers(w, row0, buf, k) + [Data(RowSlice(w, buf, row0 + k))]
      == t0 + RowTransfers(w, row0, buf, SentRows(faults, |t0|, rows))
  {
    FirstErrorSnoc(faults, |t0|, k);
    FirstErrorExtend(faults, |t0|, k + 1, rows);
    var n := SentRows(faults, |t0|, rows);
    assert n == k + 1;
    RowTransfersSnoc(t0, w, row0, buf, k);
  }

  /** The row loop after k successful row transfers when transfer k succeeds. */
  lemma {:induction false} RowsOkAt(faults: map<nat, DisplayError>, t0: seq<Event>, w: Window, row0: int, buf: seq<bv8>, k: nat)
    requires Fits(w) && |buf| == BufferSize && 0 <= row0 && row0 + k < Height
    requires FirstError(faults, |t0|, k) == k && Response(faults, |t0| + k).Ok?
    ensures FirstError(faults, |t0|, k + 1) == k + 1
    ensures t0 + RowTransfers(w, row0, buf, k) + [Data(RowSlice(w, buf, row0 + k))]
      == t0 + RowTransfers(w, row0, buf, k + 1)
  {
    FirstErrorSnoc(faults, |t0|, k);
    RowTransfersSnoc(t0, w, row0, buf, k);
  }

  /** The row loop when every row transfer succeeded: all rows were sent and the last
      answer is Ok. */
  lemma {:induction false} RowsAllOk(faults: map<nat, DisplayError>, start: nat, rows: nat)
    requires rows >= 1 && FirstError(faults, start, rows) == rows
    ensures SentRows(faults, start, rows) == rows
    ensures Response(faults, start + SentRows(faults, start, rows) - 1).Ok?
  {
    FirstErrorSnoc(faults, start, rows - 1);
  }

  /** The row loop stops at the first failure: every transfer before the last one sent
      succeeded, the last one failed when fewer than all rows were sent, and the loop
      ends in success exactly when every row transfer succeeds. */
  lemma {:induction false} SentRowsStopsAtFirstError(faults: map<nat, DisplayError>, start: nat, rows: nat)
    requires rows >= 1
    ensures 1 <= SentRows(faults, start, rows) <= rows
    ensures forall j :: start <= j < start + SentRows(faults, start, rows) - 1 ==> Response(faults, j).Ok?
    ensures SentRows(faults, start, rows) < rows ==> Response(faults, start + SentRows(faults, start, rows) - 1).Err?
    ensures Response(faults, start + SentRows(faults, start, rows) - 1).Ok? <==>
      forall j :: start <= j < start + rows ==> Response(faults, j).Ok?
  {
    var k := FirstError(faults, start, rows);
    FirstErrorSpec(faults, start, rows);
    if k == rows {
      assert Response(faults, start + rows - 1).Ok?;
    } else {
      assert Response(faults, start + k).Err?;
    }
  }

  /** Everything a partial flush of box `b` puts on the bus, when its first transfer is
      at trace position `start`: the window commands, then the rows up to the first
      failure. */
  function FlushEvents(faults: map<nat, DisplayError>, start: nat, b: Box, buf: seq<bv8>): seq<Event>
    requires WellFormed(b) && |buf| == BufferSize
  {
    WindowSetup(b) + RowTransfers(FlushWindow(b), b.rowMin, buf, SentRows(faults, start + 5, Rows(b)))
  }

  /** What a partial flush of box `b` returns: the answer to its last row transfer. */
  function FlushOutcome(faults: map<nat, DisplayError>, start: nat, b: Box): Outcome
    requires WellFormed(b)
  {
    Response(faults, start + 5 + SentRows(faults, start + 5, Rows(b)) - 1)
  }

  /** The window transfers followed by the row loop's transfers make up a partial flush. */
  lemma {:induction false} FlushTraffic(faults: map<nat, DisplayError>, t0: seq<Event>, t1: seq<Event>, t2: seq<Event>,
                     b: Box, buf: seq<bv8>, r: Outcome)
    requires WellFormed(b) && |buf| == BufferSize
    requires t1 == t0 + WindowSetup(b)
    requires t2 == t1 + RowTransfers(FlushWindow(b), b.rowMin, buf, SentRows(faults, |t1|, b.rowMax - b.rowMin + 1))
    requires r == Response(faults, |t1| + SentRows(faults, |t1|, b.rowMax - b.rowMin + 1) - 1)
    ensures t2 == t0 + FlushEvents(faults, |t0|, b, buf)
    ensures r == FlushOutcome(faults, |t0|, b)
  {
    assert |t1| == |t0| + 5;
    var n := SentRows(faults, |t0| + 5, Rows(b));
    var rows := RowTransfers(FlushWindow(b), b.rowMin, buf, n);
    assert t2 == t1 + rows;
    assert FlushEvents(faults, |t0|, b, buf) == WindowSetup(b) + rows;
    Associative(t0, WindowSetup(b), rows);
  }

  // ---------------------------------------------------------------------------------
  // The driver object
  // ---------------------------------------------------------------------------------

  /** The commands `init` sends, in the datasheet's order. */
  const InitSequence: seq<Command> := [
    Unlock,
    DisplayOff,
    SetColumnAddress(0x1C, 0x5B),
    SetRowAddress(0x00, 0x3F),
    SetDisplayClock(0x91),
    SetMuxRatio(0x3F),
    SetDisplayOffset(0x00),
    SetStartLine(0x00),
    SetRemapFormat(0x14, 0x11),
    SetGPIO(0x00),
    SetFunctionSelection(0x01),
    SetDisplayEnhancementA(0xA0, 0xFD),
    SetContrastCurrent(0xCF),
    SetMasterCurrent(0x0F),
    SetLinearGrayScaleTable,
    SetPhaseLength(0xE2),
    SetDisplayEnhancementB(0xA2, 0x20),
    SetPrechargeVoltage(0x1F),
    SetPrechargePeriod(0x08),
    SetVCOMH(0x07),
    NormalDisplayMode,
    DisplayOn
  ]

  /** `init`'s traffic can be read back into its 22 commands. */
  lemma InitTraceDecodes()
    ensures |InitSequence| == 22
    ensures DecodeTrace(Transmit(InitSequence)) == Some(InitSequence)
  {
    DecodeTransmit(InitSequence);
  }

  class Ssd1322 {
    /** The transport. */
    const display: Interface
    /** 8192 bytes, two pixels each. */
    const buffer: array<bv8>
    /** The dirty box, None when nothing changed since the last partial flush. */
    var boundingBox: Option<Box>
    /** Writes that changed a byte since the last partial flush. */
    var numChanged: nat
    /** The (column-byte, row) of every changed write since the last partial flush. */
    ghost var Dirty: set<Point>

    /** The buffer has its fixed size and the box is exactly the min/max of Dirty. */
    ghost predicate Valid()
      reads this
    {
      buffer.Length == BufferSize && Bounded(boundingBox) && Tight(boundingBox, Dirty)
    }

    /** The drawing state, as the functions above see it. */
    function State(): (c: Canvas)
      reads this, buffer
      ensures |c.buffer| == buffer.Length
    {
      Canvas(buffer[..], boundingBox, numChanged)
    }

    /** `new`: a zeroed buffer, no box, no changes. */
    constructor (display: Interface)
      ensures Valid() && fresh(buffer) && this.display == display
      ensures buffer[..] == seq(BufferSize, _ => 0)
      ensures boundingBox == None && numChanged == 0 && Dirty == {}
    {
      this.display := display;
      buffer := new bv8[BufferSize](_ => 0);
      boundingBox := None;
      numChanged := 0;
      Dirty := {};
    }

    /** `send_command`: `Command::send` on the transport, which never fails. */
    method SendCommand(c: Command) returns (r: Outcome)
      modifies display
      ensures display.trace == old(display.trace) + Transfers(c)
      ensures r == Ok
    {
      r := Send(c, display);
    }

    /** `init`: the 22 setup commands in order, one `send_command` each. Each returns
        Ok, so the early return after each of them never happens. */
    method Init() returns (r: Outcome)
      modifies display
      ensures display.trace == old(display.trace) + Transmit(InitSequence)
      ensures r == Ok
    {
      ghost var t0 := display.trace;
      var i := 0;
      while i < |InitSequence|
        invariant 0 <= i <= |InitSequence|
        invariant display.trace == t0 + Transmit(InitSequence[..i])
      {
        var ignored := SendCommand(InitSequence[i]);
        TransmitSnoc(InitSequence, i);
        i := i + 1;
      }
      assert InitSequence[..i] == InitSequence;
      r := Ok;
    }

    /** `flush_all`: the full window, then the whole buffer as one data transfer, whose
        answer is the result. The box and the counter are not touched. */
    method FlushAll() returns (r: Outcome)
      requires Valid()
      modifies display
      ensures display.trace == old(display.trace) + Transmit(FullWindow) + [Data(buffer[..])]
      ensures r == Response(display.faults, |old(display.trace)| + 5)
    {
      var ignored := SendCommand(SetColumnAddress(0x1C, 0x5B));
      ignored := SendCommand(SetRowAddress(0x00, 0x3F));
      ignored := SendCommand(WriteRAM);
      WindowCommandTransfers(0x1C, 0x5B);
      WindowCommandTransfers(0x00, 0x3F);
      FullWindowTransfers();
      r := display.SendData(buffer[..]);
    }

    /** `update_box`, with the source's branches: when the box's bounds are in order
        they compute the min/max widening Touch. */
    method UpdateBox(x: int, y: int)
      requires boundingBox.Some? ==> Ordered(boundingBox.value)
      requires 0 <= x < 256 && 0 <= y < 256
      modifies this`boundingBox
      ensures boundingBox == Some(Touch(old(boundingBox), x / 2, y))
    {
      match boundingBox {
        case Some(b) =>
          var newCol := (b.colMin, b.colMax);
          var newRow := (b.rowMin, b.rowMax);
          if x / 2 < b.colMin {
            newCol := (x / 2, b.colMax);
          } else if x / 2 > b.colMax {
            newCol := (b.colMin, x / 2);
          }
          if y < b.rowMin {
            newRow := (y, b.rowMax);
          } else if y > b.rowMax {
            newRow := (b.rowMin, y);
          }
          boundingBox := Some(Box(newCol.0, newCol.1, newRow.0, newRow.1));
        case None =>
          boundingBox := Some(Box(x / 2, x / 2, y, y));
      }
    }

    /** `draw_iter`: the state becomes Draw of the old state, and Dirty gains the points
        of exactly the writes that changed a byte. */
    method DrawIter(pixels: seq<Pixel>)
      requires Valid()
      modifies this, buffer
      ensures Valid()
      ensures State() == Draw(old(State()), pixels)
      ensures Dirty == old(Dirty) + PointsOf(ChangeLog(old(State()), pixels))
    {
      ghost var c0 := State();
      var i := 0;
      while i < |pixels|
        invariant 0 <= i <= |pixels|
        invariant Valid()
        invariant State() == Draw(c0, pixels[..i])
        invariant Dirty == old(Dirty) + PointsOf(ChangeLog(c0, pixels[..i]))
      {
        DrawStep(c0, pixels, i);
        DrawPixelAt(pixels[i]);
        i := i + 1;
      }
      assert pixels[..|pixels|] == pixels;
    }

    /** One pass of the loop of `draw_iter`: an on-screen pixel whose write changes its
        byte is stored, counted and added to the box; any other pixel is skipped. */
    method DrawPixelAt(p: Pixel)
      requires Valid()
      modifies this, buffer
      ensures Valid()
      ensures State() == DrawPixel(old(State()), p)
      ensures Dirty == old(Dirty) + PointsOf(if Changes(old(buffer[..]), p) then [(p.x / 2, p.y)] else [])
    {
      ghost var before := State();
      if 0 <= p.x <= 255 && 0 <= p.y <= 63 {
        var index := p.x / 2 + p.y * 128;
        var newVal := if p.x % 2 == 0 then UpdateUpperNibble(buffer[index], p.color)
                      else UpdateLowerNibble(buffer[index], p.color);
        assert index == Index(p.x, p.y) && newVal == WriteNibble(before.buffer[index], p.x, p.color);
        if newVal != buffer[index] {
          numChanged := numChanged + 1;
          UpdateBox(p.x, p.y);
          TouchKeepsTight(before.box, Dirty, p.x / 2, p.y);
          buffer[index] := newVal;
          Dirty := Dirty + {(p.x / 2, p.y)};
        }
      }
    }

    /** `clear`: every byte becomes `(g << 4) | g`; the box and the counter are left as
        they were. */
    method Clear(g: Gray4)
      requires Valid()
      modifies buffer
      ensures Valid()
      ensures forall i :: 0 <= i < BufferSize ==> buffer[i] == ClearByte(g)
    {
      var byte := ClearByte(g);
      forall i | 0 <= i < buffer.Length {
        buffer[i] := byte;
      }
    }

    /** The window part of `flush`: the rounded column-bytes `col0`..`col1` converted to
        controller column addresses, the box's rows, then write-RAM. */
    method SendWindow(b: Box, col0: int, col1: int)
      requires WellFormed(b) && col0 == FlushWindow(b).col0 && col1 == FlushWindow(b).col1
      modifies display
      ensures display.trace == old(display.trace) + WindowSetup(b)
    {
      // Convert bytes to column address
      var colStart, colEnd := ColumnAddress(col0), ColumnAddress(col1);
      var ignored := SendCommand(SetColumnAddress(colStart, colEnd));
      ignored := SendCommand(SetRowAddress(RowAddress(b.rowMin), RowAddress(b.rowMax)));
      ignored := SendCommand(WriteRAM);
      WindowCommandTransfers(colStart, colEnd);
      WindowCommandTransfers(RowAddress(b.rowMin), RowAddress(b.rowMax));
    }

    /** One pass of the row loop of `flush`: the bytes of `row` through window `w`,
        as one data transfer. */
    method SendRow(w: Window, buf: seq<bv8>, row: int) returns (r: Outcome)
      requires Fits(w) && |buf| == BufferSize && 0 <= row < Height
      modifies display
      ensures display.trace == old(display.trace) + [Data(RowSlice(w, buf, row))]
      ensures r == Response(display.faults, |old(display.trace)|)
    {
      var startColByte := w.col0 + row * 128;
      var endColByte := startColByte + w.rowBytes;
      r := display.SendData(buf[startColByte..endColByte]);
    }

    /** The row loop of `flush`: the slice of each row from rowMin to rowMax through
        window `w`, stopping after the first failing transfer. The result is the answer
        to the last transfer. */
    method SendRows(w: Window, buf: seq<bv8>, rowMin: int, rowMax: int) returns (r: Outcome)
      requires Fits(w) && |buf| == BufferSize && 0 <= rowMin <= rowMax < Height
      modifies display
      ensures display.trace ==
        old(display.trace) + RowTransfers(w, rowMin, buf, SentRows(display.faults, |old(display.trace)|, rowMax - rowMin + 1))
      ensures r == Response(display.faults, |old(display.trace)| + SentRows(display.faults, |old(display.trace)|, rowMax - rowMin + 1) - 1)
    {
      ghost var t0 := display.trace;
      ghost var faults := display.faults;
      var rows := rowMax - rowMin + 1;
      r := Ok;
      var k := 0;
      while k < rows
        invariant 0 <= k <= rows
        invariant display.trace == t0 + RowTransfers(w, rowMin, buf, k)
        invariant FirstError(faults, |t0|, k) == k
        invariant r == Ok
      {
        r := SendRow(w, buf, rowMin + k);
        if r.Err? {
          RowsFailAt(faults, t0, w, rowMin, buf, k, rows);
          return;
        }
        RowsOkAt(faults, t0, w, rowMin, buf, k);
        k := k + 1;
      }
      RowsAllOk(faults, |t0|, rows);
    }

    /** The sending part of `flush` for box `b` over the buffer contents `buf`: the
        window commands, then the row loop. */
    method FlushBox(b: Box, buf: seq<bv8>) returns (r: Outcome)
      requires WellFormed(b) && |buf| == BufferSize
      modifies display
      ensures display.trace == old(display.trace) + FlushEvents(display.faults, |old(display.trace)|, b, buf)
      ensures r == FlushOutcome(display.faults, |old(display.trace)|, b)
    {
      ghost var t0 := display.trace;
      var w := FlushWindow(b);
      SendWindow(b, w.col0, w.col1);
      ghost var t1 := display.trace;
      r := SendRows(w, buf, b.rowMin, b.rowMax);
      FlushTraffic(display.faults, t0, t1, display.trace, b, buf, r);
    }

    /** `flush`: with no box, nothing is sent and nothing changes. Otherwise the window
        commands, then one data transfer per row of the box, top to bottom, stopping at
        the first failure. On success the box and the counter are reset; on a failure
        that error is returned and both are left for a retry. */
    method Flush() returns (r: Outcome)
      requires Valid()
      modifies this, display
      ensures Valid()
      ensures old(boundingBox) == None ==>
        r == Ok && display.trace == old(display.trace) && unchanged(this)
      ensures old(boundingBox).Some? ==>
        var b := old(boundingBox).value;
        && display.trace == old(display.trace) + FlushEvents(display.faults, |old(display.trace)|, b, buffer[..])
        && r == FlushOutcome(display.faults, |old(display.trace)|, b)
        && (r.Ok? ==> boundingBox == None && numChanged == 0 && Dirty == {})
        && (r.Err? ==> boundingBox == old(boundingBox) && numChanged == old(numChanged) && Dirty == old(Dirty))
    {
      if boundingBox.Some? {
        r := FlushBox(boundingBox.value, buffer[..]);
        if r.Err? {
          return;
        }

        // Reset the bounding_box
        boundingBox := None;
        numChanged := 0;
        Dirty := {};
      }
      r := Ok;
    }
  }
}
