# SSD1322 grayscale OLED driver core, modelled in Dafny

This project models the core of the `ssd1322_di` Rust driver for the SSD1322 256×64
4-bit grayscale OLED controller, and proves properties of that model.

- **`Ssd1322`** (`src/display.rs`) is modelled as the class `Display.Ssd1322`. It owns an
  8192-byte framebuffer (`array<bv8>`). Each byte packs two pixels: the even x in the
  high nibble, the odd x in the low nibble. It also owns the dirty bounding box (in
  column-bytes `x / 2` and rows), the change counter `numChanged` and the transport.
- `draw_iter` is a method with a loop over the pixels. It is proved against the
  function `Display.Draw`, which is defined one pixel at a time by `Display.DrawPixel`.
- `update_box`, `clear`, `init`, `flush_all` and `flush` are methods that change the
  object's fields or append to the transport's trace.
- `flush` is split into the same steps as the source:
  - the rounding of the column-byte bounds;
  - the window commands;
  - the loop over rows, which stops at the first failing transfer (the source's `?`);
  - the reset of the box and the counter.
- **`Command`** (`src/command.rs`) is modelled in the module `Commands`:
  - a datatype of the 26 variants;
  - the byte table `Encode`, with a decoder `Decode` that inverts it;
  - `Send`, which appends the opcode as one command-phase transfer and then the
    parameters, if any, as one data-phase transfer.
- **The transport** (`display_interface`'s `WriteOnlyDataCommand`) is the class
  `DisplayInterface.Interface`.
  - Every `send_commands` / `send_data` call appends a `Cmd(bytes)` or `Data(bytes)`
    event to `trace`.
  - The bus's answer to the transfer at trace position k is fixed in advance by the map
    `faults`: the error stored for k, or `Ok`. This is the failure oracle that `flush`'s
    error path is proved against.
- **The tests** of `src/display.rs` are replayed in the module `DisplayTests`.
  - The glyphs they render through a font (`|` and `A` of the 6×10 font) are written
    out as the pixels they light.
  - The bounding-box, counter and buffer assertions of all four drawing tests are proved.
  - For the one-column `|` test (`single_char_one_col`, `src/display.rs:264-289`) the
    traffic of the flush that follows is proved as well, both on a bus that never fails
    and on one that fails at the third row.

The model follows the code as written, including where it differs from what its doc comments
picture:

- `Command::send` discards both transport results and always returns `Ok`
  (`src/command.rs:70`, `:74`, `:107`). So `send_command` never fails. The early
  returns after each command in `init`, `flush_all` and `flush` never happen, and
  `init` always returns `Ok`. Only the `send_data` calls in `src/display.rs` can fail.
- The one-column test's picture (`src/display.rs:255-262`) puts `|` at x = 2, the high
  nibble of byte 1, and the test asserts a box from column-byte 1 to 1
  (`src/display.rs:277-285`). `Display.FlushWindow` rounds that box down to start at
  column-byte 0, so the following flush sends column-bytes 0 and 1 of each row: 7 rows of
  2 bytes each.
- The tests call a `flush_changed` that does not exist (`src/display.rs:288`, `:322`,
  `:360`, `:393`), so they do not compile as written. The model uses `flush`.
- `src/lib.rs` does not declare `mod display`, so `src/display.rs` is not compiled in
  this revision of the crate. It is modelled all the same.

## Model

| member | source | states |
|---|---|---|
| `Framebuffer.UpdateUpperNibble` | src/display.rs:216-219 | the result's high nibble is the color's low four bits and its low nibble is the input's |
| `Framebuffer.UpdateLowerNibble` | src/display.rs:221-224 | the result's low nibble is the color's low four bits and its high nibble is the input's |
| `Framebuffer.Index` | src/display.rs:179 | an on-screen pixel's byte index is below 8192, and dividing it by the 128-byte row length gives back the row and the column-byte x / 2 |
| `Framebuffer.IndexSameByte` | src/display.rs:179 | two pixels share a byte exactly when they are in the same row and have the same x / 2 |
| `Framebuffer.WriteNibble` | src/display.rs:180-184 | writing a color stores it in the nibble of pixel x and keeps the nibble of the byte-mate pixel |
| `Framebuffer.WriteNibbleUnchangedIff` | src/display.rs:180-187 | a write leaves its byte as it was if and only if the pixel already had that color |
| `Framebuffer.SetPixel` | src/display.rs:179-190 | writing one in-bounds pixel changes no byte except the one at its index |
| `Framebuffer.ReadAfterWrite` | src/display.rs:179-190 | reading a pixel back after writing it yields the color written |
| `Framebuffer.WriteKeepsOtherPixels` | src/display.rs:179-190 | writing a pixel leaves every other pixel, its byte-mate included, as it was |
| `Framebuffer.ClearByte` | src/display.rs:199-200 | the fill byte `(g << 4) \| g` has both nibbles equal to g |
| `Framebuffer.ClearedPixels` | src/display.rs:198-202 | after a clear to g, every pixel of the panel reads g |
| `BoundingBox.Touch` | src/display.rs:138-161 | the new box holds the point; with no box it is the one-point box; otherwise it only widens, and each bound is either the old bound or the point |
| `BoundingBox.TouchKeepsTight` | src/display.rs:138-161 | if the box was exactly the min/max rectangle of a set of points, after a touch it is exactly the min/max rectangle of that set plus the new point |
| `BoundingBox.TightUnique` | src/display.rs:138-161 | a rectangle that is the exact min/max of a set of points is determined by that set, so the order of the touches does not matter |
| `BoundingBox.TightIsBounded` | src/display.rs:22 | the min/max box of on-screen points satisfies colMin <= colMax <= 127 and rowMin <= rowMax <= 63 |
| `Commands.Encode` | src/command.rs:78-105 | every encoding is 1 to 3 bytes long |
| `Commands.EncodeMatchesTable` | src/command.rs:78-105 | each encoding starts with the variant's opcode, followed by as many bytes as that opcode has parameters in the controller's table |
| `Commands.DecodeEncode` | src/command.rs:78-105 | decoding an encoding gives back the command with its parameters in declared order |
| `Commands.EncodeDecode` | src/command.rs:78-105 | every byte string that decodes is the encoding of what it decodes to |
| `Commands.EncodeInjective` | src/command.rs:78-105 | the 26 opcodes are distinct, so two commands with the same encoding are equal |
| `Commands.Transfers` | src/command.rs:68-76 | `send` makes one or two transfers: first a command-phase transfer of a single byte, then, if there is a second, a data-phase transfer |
| `Commands.TransfersShape` | src/command.rs:68-76 | `send` issues exactly one command-phase transfer, holding only the opcode; a data-phase transfer of the remaining bytes follows if and only if the encoding is longer than one byte; together they carry the whole encoding |
| `Commands.NoDataPhaseIff` | src/command.rs:92-104 | exactly the eight parameterless variants produce no data-phase transfer |
| `Commands.UnlockTransfers` | src/command.rs:79 | `Unlock` is sent as the opcode 0xFD, then the fixed parameter 0x12 |
| `Commands.Send` | src/command.rs:64-108 | the trace grows by the command's transfers in order, and the result is `Ok` whatever the bus answers |
| `Commands.TransmitSnoc` | src/command.rs:64-76 | sending the next command of a list appends exactly that command's transfers to the transmission of the ones before it |
| `Commands.DecodeTransmit` | src/command.rs:68-105 | a sequence of commands sent one after another can be read back from the trace alone |
| `Commands.TransmitDecode` | src/command.rs:68-105 | every trace that reads back as commands is exactly the transmission of those commands |
| `Display.DrawPixel` | src/display.rs:177-191 | one pixel of `draw_iter` keeps the framebuffer at 8192 bytes; its effect on buffer, box and counter is stated by `DrawPixelEffect` |
| `Display.Draw` | src/display.rs:173-193 | drawing a pixel sequence keeps the framebuffer at 8192 bytes; its effects are stated by `DrawPaints`, `DrawCounts` and `DrawKeepsTight` |
| `Display.DrawPixelEffect` | src/display.rs:177-191 | an off-screen pixel changes nothing; an on-screen one stores the written byte; a change is recorded if and only if the pixel did not already have that color, and then the counter rises by exactly 1 and the box is touched at (x / 2, y) |
| `Display.DrawOffScreen` | src/display.rs:174-177 | drawing only off-screen pixels, negative ones included, leaves buffer, box and counter unchanged |
| `Display.DrawPaints` | src/display.rs:186-191 | skipping the writes that change nothing does not alter the image: the buffer after drawing is the buffer with every on-screen pixel written in order |
| `Display.DrawCounts` | src/display.rs:186-188 | the counter rises by the number of writes that changed a byte, and by nothing else |
| `Display.DrawKeepsTight` | src/display.rs:186-191 | drawing keeps the box the exact min/max of the points changed since the box was last reset |
| `Display.DrawBoxIsMinMax` | src/display.rs:138-161 | from no box, the box after drawing equals the min/max of the column-bytes and rows of the changed writes, whatever their order, and it is well-formed |
| `Display.FlushWindow` | src/display.rs:109-117 | both rounded bounds are even; each row sends col1 - col0 + 2 bytes; the window covers every dirty column-byte and stays inside the 128-byte row; the column addresses lie in 0x1C..0x5B |
| `Display.FlushWindowUnique` | src/display.rs:109-117 | any window with even bounds at most one column-byte below the box's bounds, and a row length spanning them, is the one `flush` uses |
| `Display.WindowCommands` | src/display.rs:114-119 | a partial flush sets the window with three commands: SetColumnAddress, then SetRowAddress, then WriteRAM |
| `Display.WindowAddresses` | src/display.rs:114-118 | the column-address parameters are the rounded bounds' `/ 2 + 0x1C`, ordered and in 0x1C..0x5B, and the row parameters are the box's rows |
| `Display.WindowSetupSendsCommands` | src/display.rs:114-119 | the window part of a partial flush is the transmission of SetColumnAddress, SetRowAddress and WriteRAM |
| `Display.RowSlice` | src/display.rs:121-125 | the bytes sent for one row are exactly rowBytes long |
| `Display.RowTransfers` | src/display.rs:121-126 | n rows of the loop make exactly n transfers; `RowTransferAt` says what each one carries |
| `Display.RowTransferAt` | src/display.rs:121-126 | the k-th row transfer of a flush carries the buffer slice of row row0 + k, so the rows go out in ascending order |
| `Display.FlushSendsDirtyBytes` | src/display.rs:121-125 | every byte of the dirty box is sent, by the transfer of its row at its offset from the rounded start, and each slice lies inside the 8192-byte buffer |
| `Display.FullWindowTransfers` | src/display.rs:100-102 | `flush_all`'s window is sent as SetColumnAddress(0x1C, 0x5B), SetRowAddress(0, 0x3F), WriteRAM |
| `Display.FullBoxCommands` | src/display.rs:99-119 | a partial flush of the full-panel box sets the same window as `flush_all` |
| `Display.FullRowsAll` | src/display.rs:99-126 | ... and sends the same bytes as `flush_all`, split into one transfer per row |
| `Display.FirstErrorSpec` | src/display.rs:124-125 | every transfer before the first-failure position succeeds, and the one at that position fails |
| `Display.SentRowsStopsAtFirstError` | src/display.rs:121-126 | the row loop sends every row up to and including the first failing one; it ends in success if and only if every row transfer succeeds |
| `Display.InitTraceDecodes` | src/display.rs:65-91 | `init`'s traffic, the transmission of `InitSequence` (the commands of `src/display.rs:66-88`), is 22 commands and reads back to exactly that sequence |
| `Display.Ssd1322.constructor` | src/display.rs:36-43 | a new driver has a zeroed 8192-byte buffer, no box and a zero counter |
| `Display.Ssd1322.SendCommand` | src/display.rs:94-96 | the command's transfers are appended and the result is `Ok` |
| `Display.Ssd1322.Init` | src/display.rs:65-91 | the 22 setup commands of `InitSequence` are sent one after another in the listed order, and the result is `Ok` |
| `Display.Ssd1322.FlushAll` | src/display.rs:99-104 | the full window, then the whole buffer as one data transfer; the result is that transfer's answer; box and counter are untouched |
| `Display.Ssd1322.UpdateBox` | src/display.rs:138-162 | from no box, or from a box whose bounds are in order, the source's branches compute the min/max widening `Touch` at (x / 2, y) |
| `Display.Ssd1322.DrawPixelAt` | src/display.rs:177-191 | one loop pass: the state becomes `DrawPixel` of the old state, and the changed point joins the dirty set |
| `Display.Ssd1322.DrawIter` | src/display.rs:169-196 | the state becomes `Draw` of the old state and the pixels; the box stays the exact min/max of the changed points |
| `Display.Ssd1322.Clear` | src/display.rs:198-204 | every one of the 8192 bytes becomes `(g << 4) \| g`; the box and the counter are not in its frame |
| `Display.Ssd1322.SendWindow` | src/display.rs:114-119 | the window part of `flush` appends the transfers of the three window commands for the rounded bounds and the box's rows, and nothing else |
| `Display.Ssd1322.SendRow` | src/display.rs:122-125 | one pass of the row loop appends one data transfer of that row's slice; its result is the bus's answer to that transfer |
| `Display.Ssd1322.SendRows` | src/display.rs:121-126 | one data transfer per row from rowMin to rowMax, stopping after the first failure, whose answer is the result |
| `Display.Ssd1322.FlushBox` | src/display.rs:109-128 | the sending part of `flush` appends the window and then the rows up to the first failure; its result is the answer to the last row sent, which `SentRowsStopsAtFirstError` shows is the first failure, or `Ok` when every row succeeds |
| `Display.Ssd1322.Flush` | src/display.rs:107-134 | with no box, nothing is sent and nothing changes; otherwise the window, then the rows up to the first failure; on success the box becomes None and the counter 0, on failure the error is returned and both are kept |
| `DisplayTests.DrawFromIsDraw` | src/display.rs:173 | drawing pixel by pixel from the front, as the loop runs, gives the same state as `Draw` |
| `DisplayTests.DrawNewPixels` | src/display.rs:177-191 | pixels at distinct places, each with a color new to its place, are each recorded if and only if they are on-screen |
| `DisplayTests.DrawOnBlank` | src/display.rs:36-43 | on a new driver, distinct lit pixels give one change per on-screen pixel and the min/max box of their points |
| `DisplayTests.ColumnOnBlank` | src/display.rs:177-191 | a vertical run of n lit pixels on a new driver: n changes, a box of one column-byte over its rows, and the lit nibble in exactly the bytes of its rows, every other byte still 0 |
| `DisplayTests.OneColumnScenario` | src/display.rs:264-287 | the `\|` glyph: box column-byte 1, rows 1 to 7, 7 changes, and rows 1 to 7 start with 0, 0xF0, 0 |
| `DisplayTests.GlyphAOnScreen` | src/display.rs:303-320 | the `A` glyph anywhere fully on-screen: 16 changes, box from dx / 2 to (dx + 4) / 2 and rows dy + 1 to dy + 7 |
| `DisplayTests.MultiColumnScenario` | src/display.rs:303-320 | the `A` glyph at (0, 0): box column-bytes 0 to 2, rows 1 to 7, 16 changes |
| `DisplayTests.OffsetScenario` | src/display.rs:341-358 | the `A` glyph at (1, 5): box column-bytes 0 to 2, rows 6 to 12, 16 changes |
| `DisplayTests.GlyphAClipped` | src/display.rs:374-391 | the `A` glyph in the last column: only its left stroke is recorded, 5 changes in column-byte 127 |
| `DisplayTests.ClippedScenario` | src/display.rs:374-391 | the `A` glyph at (255, 0): box column-byte 127, rows 3 to 7, 5 changes |
| `DisplayTests.OppositeCornersScenario` | src/display.rs:145-148 | pixel (255, 0) then (0, 0): the box spans column-bytes 0 to 127 of row 0 |
| `DisplayTests.OneColumnFlush` | src/display.rs:107-134 | after the `\|` glyph, a flush sends the window 0x1C..0x1C and rows 1..7, then 7 two-byte rows; it returns `Ok` and resets the box and the counter |
| `DisplayTests.OneColumnFlushFails` | src/display.rs:124-125 | with a failure at the third row, the flush sends three rows, returns the error and keeps the box and the counter of 7 |
| `DisplayTests.EmptyFlush` | src/display.rs:107-108 | a flush of a new driver sends nothing and returns `Ok` |
| `DisplayTests.ClearThenFlushAll` | src/display.rs:198-204 | after the `\|` glyph, a clear to g and then `flush_all` send the full window and 8192 bytes of `(g << 4) \| g`, and return `Ok` |

## Left out

- `Ssd1322::reset` (`src/display.rs:46-62`): it toggles a GPIO pin and waits fixed
  delays. That is hardware timing with no driver state, so it is not modelled.
- The `DrawTarget` and `OriginDimensions` traits and the `Gray4`, `Pixel` and `Point`
  types are not modelled. A pixel is `Display.Pixel(x: int, y: int, color: Gray4)`, and
  `size()` is the constants `Width = 256` and `Height = 64`.
- `draw_iter`'s infallible `Result` is not modelled: the method returns nothing.
- The source's `coord.x as usize` turns negative coordinates into very large ones, which
  then fail the bounds check. The model checks `0 <= x <= 255 && 0 <= y <= 63` on
  integers, which accepts and rejects the same coordinates.
- Font rendering in the tests comes from another crate. Each rendered glyph is replaced
  by the list of pixels it lights, read off the pictures in the tests' doc comments.
- The `DataFormat` variants other than `U8`, and the SPI or other bus behind the
  transport, are external. The transport is only the trace plus the fault map.
- `src/graphics.rs`, `src/properties.rs`, `src/builder.rs` and `src/lib.rs` are not part
  of this model. They hold an older 1-bit variant whose `set_pixel` does nothing, a draw
  area forwarded as two commands, configuration and module wiring.
- `Display.Ssd1322.DrawIter`: `numChanged` is a `nat`. The source's `u16` counter is
  incremented without a guard and would wrap (or panic in a debug build) after 65535
  changes. The model does not model that overflow.
- `Commands.Send`: the code discards both transport results (`let _ =`,
  `src/command.rs:70`, `:74`), so a failing command-phase or data-phase transfer still
  yields `Ok`. The model does the same, so neither `send_command` nor `init` ever fails.
- The flushes at the end of the three `A`-glyph tests (`src/display.rs:322`, `:360`,
  `:393`, in the tests at `src/display.rs:303-323`, `:341-361` and `:374-394`) are not
  modelled. Their glyph, box and counter assertions are proved; the general flush
  lemmas cover their traffic, but no lemma works it out for those boxes.
