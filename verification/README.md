# Bolide's remote desktop, modelled and proved

Bolide drives a desktop over the RFB protocol. This project models the parts of it whose correctness is
not evident from reading them, as Dafny functions, classes and step systems, and proves what they
promise.

* **The framebuffer codec pair.** `Bytes`, `PixelFormats` and `PixelLaws` hold the bit arithmetic and the
  pixel formats. `ZrleEncode` says what the fake server's tile stream is and `ZrleEncoder` is the loops
  that write it, with `ZrleForms` on which form each tile takes and `ZrleGrid` on which tiles there are;
  `ZrleDecode` and `ZrleDecoder` are the same for the client, and `ZrleGrammar` says exactly which bytes
  are a tile. `ZrleTiles`, `ZrleRects` and `RawRects` prove that the compressed path means what the raw
  path means, and exactly when.
* **A replica over whole runs.** `Grid`, `Pictures`, `Rasters`, `Framebuffers` and `Screens` are the two
  ends' pixel buffers. `ClientReads` with `ClientReader` is the read loop over a byte stream,
  `ServerWrites` with `FakeServer` the server's connection loop, `Zlib` the stream between them. `Updates`
  is about updates of any number of rects, `Areas` about rects that show parts of one screen, and `Replica`
  joins the ends: at every message boundary of every run the client shows what the server shows.
* **The session as a step system.** `Sessions` gives the reader, the writer, `connect`, any number of
  concurrent calls and a server that folds requests one step per access to shared state. `SessionProgress`,
  `SessionRefresh` and `SessionResizes` are the three documented guarantees over every interleaving;
  `SessionStory` is what the session asks for, says and tells, and `SessionSilence` what a dead one still
  does; `SessionInner` ties the shared object's methods to the steps, and `SessionReads` the byte reader's
  messages.
* **Smaller languages and arithmetic.** `ClientMessages`, `Latin1` and `WireFormat` (the messages and their
  bytes), `Ard` (Apple's login exchange), `Chord` and `Text` (key chords), `Versions`, `VersionTexts` and
  `NumericPrecedence` (precedence), `Civil` (dates), `Fit` (letterboxing), `Drags`, `Actions`, `Plans` and
  `Hands` (computer-use actions and the lock behind them).

The pattern is the same throughout. A source loop is a method whose contract equates its result, or its
object's new state, with a function of what it was given; what the source promises is then proved of
those functions. Machine integers are naturals with their bounds in subset types, and every cast that can
cut a value is written out. Pixel buffers are byte arrays in the methods and sequences of pixels in the
functions, related by `Grid.Cells`.

In the session step system, fields under `Past` and a few constructor arguments marked as history record
what happened and are never read by a step.

Where the code and what is written about it differ, or a natural expectation fails, the code is modelled
and the difference is a theorem:

* The pixel format's documentation says a 3-byte CPIXEL is used when the channels' values fit in three
  bytes; the code looks at the shifts only. `PixelLaws.CpixelLosslessIff` and `RawRects.ZrleEqualsRawIff`
  give the exact condition, `WireFormat.CpixelIsStandardIff` shows it is also the condition for the CPIXEL to
  be the standard's, and `PixelLaws.CpixelCounterexample` is a format that fails.
* Continuous mode is said to keep exactly one request outstanding. `SessionProgress.OpeningRace` is a run
  where two are when an update is announced. `SessionProgress.OneOutstandingIff` says exactly which runs
  announce with one, and `SessionProgress.QuietSessionsHaveOne` what a caller can do to have it: wait for
  `connect` to return, and not refresh.
* Version identifiers too large for 64 bits compare as text, which sections 11.4.1 and 11.4.3 of Semantic
  Versioning 2.0.0 do not allow. `NumericPrecedence.NumericPrecedenceIff` and
  `NumericPrecedence.NumberBeforeTextIff` say exactly which comparisons come out as the standard asks, and
  `NumericPrecedence.HugeNumbersMisplaced` gives two that do not.
* A recording of a screen 65535 pixels wide or high is scaled by a pixel, since its canvas rounds down
  (`Fit.OwnScreenIsUnscaled`).

The RFB requirements are those of RFC 6143: sections 7.4 (pixel format), 7.5.3 (update requests), 7.6.1
(updates), 7.7.1 (Raw), 7.7.2 (CopyRect), 7.7.5 and 7.7.6 (TRLE and ZRLE) and 7.8.2 (DesktopSize).

## Model

| member | source | states |
|---|---|---|
| `PixelFormats.WritePixel` | crates/bolide-rfb/src/proto.rs:304-316 | pushes the pixel value's bytes in the format's order, whatever was in the buffer before: at most four, in any format |
| `PixelFormats.ReadPixel` | crates/bolide-rfb/src/proto.rs:268-284 | reads back the number that as many leading bytes stand for as the format and the slice have, at most four, in any format |
| `PixelFormats.FormatRoundTrip` | crates/bolide-rfb/src/proto.rs:236-265 | every format survives its 16-byte block, including ones no pixel could use |
| `PixelLaws.UnscaleIsNearest` | crates/bolide-rfb/src/proto.rs:329-337 | a byte becomes the nearest field value, for every maximum 2^k-1 with k from 1 to 16 |
| `PixelLaws.ScaleIsNearest` | crates/bolide-rfb/src/proto.rs:318-327 | a field value becomes the nearest byte |
| `PixelLaws.ScaleIsNearestByte` | crates/bolide-rfb/src/proto.rs:318-327 | whatever the maximum, a pixel's masked bits become the nearest byte, and a channel without any is black |
| `PixelLaws.UnscaleScale` | crates/bolide-rfb/src/proto.rs:318-337 | a field of at most 8 bits survives being widened to a byte and narrowed again |
| `PixelLaws.ScaleUnscale` | crates/bolide-rfb/src/proto.rs:318-337 | a byte survives a field of at least 8 bits |
| `PixelLaws.ScaleUnscaleError` | crates/bolide-rfb/src/proto.rs:318-337 | through any field a byte moves by at most (254 + max) / (2 max) |
| `PixelLaws.PixelRoundTrip` | crates/bolide-rfb/src/proto.rs:287-316 | a whole pixel of disjoint fields comes back channel by channel as each channel does alone, in both byte orders |
| `PixelLaws.NegotiatedIsExact` | crates/bolide-rfb/src/proto.rs:177-188 | the one format bolide asks for carries every colour exactly |
| `PixelLaws.CpixelValue` | crates/bolide-rfb/src/zrle.rs:290-303 | a CPIXEL read back is the pixel value with exactly the dropped byte cleared |
| `PixelLaws.CpixelSurvives` | crates/bolide-testkit/src/encode.rs:169-175 | when the fields fit, every colour a format can send survives its CPIXEL |
| `PixelLaws.CpixelLosslessIff` | crates/bolide-rfb/src/proto.rs:198-232 | the CPIXEL is lossless for every colour exactly when the three fields lie in the bytes it keeps |
| `PixelLaws.CpixelCounterexample` | crates/bolide-rfb/src/proto.rs:198-219 | a format the code sends in 3 bytes and that loses a colour |
| `WireFormat.CpixelIsStandardIff` | crates/bolide-rfb/src/proto.rs:198-232 | the CPIXEL sent is one RFC 6143 allows, for every pixel, exactly when the fields fit in the bytes it keeps |
| `WireFormat.NegotiatedBytes` | crates/bolide-rfb/src/proto.rs:177-188 | the format bolide asks for, byte by byte: a pixel is red, green, blue and a spare byte, and its CPIXEL leaves the spare one out |
| `PixelFormats.UnwireWire` | crates/bolide-rfb/src/proto.rs:268-316 | reading back what was written loses only what did not fit in the bytes |
| `ZrleEncoder.RawRect` | crates/bolide-testkit/src/encode.rs:30-48 | the raw payload is the region's pixel values, row-major, each in the client's format |
| `ZrleEncoder.TilePixels` | crates/bolide-testkit/src/encode.rs:154-165 | a tile's pixel values, black off the screen |
| `ZrleEncoder.WriteCpixel` | crates/bolide-testkit/src/encode.rs:169-175 | the kept bytes of one pixel |
| `ZrleEncoder.BuildPalette` | crates/bolide-testkit/src/encode.rs:179-190 | what a tile's palette is found to be: each colour where it first occurs, until there are too many to be one |
| `ZrleEncoder.BuildRuns` | crates/bolide-testkit/src/encode.rs:194-203 | the tile's runs, each ended by a change of colour |
| `ZrleEncode.PaletteCovers` | crates/bolide-testkit/src/encode.rs:179-190 | a palette not given up on holds every colour of the tile and no other |
| `ZrleTiles.RunsExpand` | crates/bolide-testkit/src/encode.rs:194-203 | the runs spell out exactly the tile's pixels |
| `ZrleTiles.RunsDiffer` | crates/bolide-testkit/src/encode.rs:194-203 | no two neighbouring runs have the same colour, and none is empty |
| `ZrleEncoder.FindPosition` | crates/bolide-testkit/src/encode.rs:266 | the index of a palette colour |
| `ZrleEncoder.WriteRunLength` | crates/bolide-testkit/src/encode.rs:216-223 | one byte of 255 for every whole 255, then the remainder |
| `ZrleEncoder.WritePackedRow` | crates/bolide-testkit/src/encode.rs:262-279 | one row of palette indices, most significant bits first, padded to a byte |
| `ZrleEncoder.WritePacked` | crates/bolide-testkit/src/encode.rs:262-279 | packed rows, each restarting on a byte boundary |
| `ZrleEncoder.WritePlainRuns` | crates/bolide-testkit/src/encode.rs:281-287 | a CPIXEL and a length for each run |
| `ZrleEncoder.WritePaletteRuns` | crates/bolide-testkit/src/encode.rs:288-305 | an index for each run, flagged and followed by a length when it is longer than a pixel |
| `ZrleEncoder.EncodeTile` | crates/bolide-testkit/src/encode.rs:231-307 | a tile in the form asked for, or in the form the automatic choice falls back to |
| `ZrleForms.PaletteCounts` | crates/bolide-testkit/src/encode.rs:179-190 | a palette names no colour twice, so its size is the tile's number of colours until it gives up |
| `ZrleForms.FormOnTheWire` | crates/bolide-testkit/src/encode.rs:231-254 | a forced form is used exactly when the tile can express it, with its own subencoding byte; anything else is sent as the automatic choice |
| `ZrleForms.AutoOnTheWire` | crates/bolide-testkit/src/encode.rs:310-322 | the automatic choice by number of colours and of runs |
| `ZrleEncoder.Tiles` | crates/bolide-testkit/src/encode.rs:98-115 | a rect's tiles, left to right and top to bottom, clipped at its right and bottom edges |
| `ZrleGrid.TilesAreTheGrid` | crates/bolide-testkit/src/encode.rs:98-115 | a rect's tile stream is the tiles of a grid of 64 by 64, row by row, the last of each as small as what is left |
| `ZrleDecoder.Cursor.Take` | crates/bolide-rfb/src/zrle.rs:317-331 | takes exactly the bytes asked for and advances past them, or refuses |
| `ZrleDecoder.Cursor.U8` | crates/bolide-rfb/src/zrle.rs:313-315 | takes one byte, or refuses |
| `ZrleDecoder.ReadOneCpixel` | crates/bolide-rfb/src/zrle.rs:290-303 | one CPIXEL as an opaque colour, the dropped byte put back as zero |
| `ZrleDecoder.ReadPalette` | crates/bolide-rfb/src/zrle.rs:272-274 | as many CPIXELs as the palette has entries |
| `ZrleDecoder.ReadLength` | crates/bolide-rfb/src/zrle.rs:277-286 | one more than the sum of the bytes up to the first below 255 |
| `ZrleDecoder.PushRunBytes` | crates/bolide-rfb/src/zrle.rs:251-261 | a run is appended whole, or refused if it would overflow the tile |
| `ZrleDecoder.DecodeRaw` | crates/bolide-rfb/src/zrle.rs:176-180 | one CPIXEL per pixel |
| `ZrleDecoder.DecodeSolid` | crates/bolide-rfb/src/zrle.rs:181-186 | one CPIXEL for the whole tile |
| `ZrleDecoder.DecodePackedRow` | crates/bolide-rfb/src/zrle.rs:195-207 | one packed row, each index taken from its own bits of its own byte |
| `ZrleDecoder.ReadRunEntry` | crates/bolide-rfb/src/zrle.rs:220-225 | an index whose top bit says whether a run length follows |
| `ZrleDecoder.DecodeBand` | crates/bolide-rfb/src/zrle.rs:153-164 | one row of tiles |
| `ZrleDecoder.PlaceBytes` | crates/bolide-rfb/src/zrle.rs:158-162 | a tile's rows laid into the rect's buffer, everything else untouched |
| `ZrleDecoder.DecodePacked` | crates/bolide-rfb/src/zrle.rs:187-209 | packed rows become palette colours, an index past the palette being refused |
| `ZrleDecoder.DecodePlainRuns` | crates/bolide-rfb/src/zrle.rs:210-216 | pairs of colour and length until the tile is full |
| `ZrleDecoder.DecodePaletteRuns` | crates/bolide-rfb/src/zrle.rs:217-234 | indices with or without a length until the tile is full |
| `ZrleDecoder.DecodeTile` | crates/bolide-rfb/src/zrle.rs:171-248 | one tile of any of the five forms, reserved subencodings refused |
| `ZrleDecoder.DecodeTiles` | crates/bolide-rfb/src/zrle.rs:146-168 | a whole rect, each tile laid where it belongs |
| `ZrleGrammar.TileIff` | crates/bolide-rfb/src/zrle.rs:171-261 | bytes are read as a tile exactly when they begin with one of the five kinds RFC 6143 describes, and then to its pixels and its last byte: every other kind, index, run and shortfall is refused |
| `ZrleTiles.LengthReads` | crates/bolide-rfb/src/zrle.rs:277-286 | a written run length reads back as itself, for every length |
| `ZrleTiles.PackField` | crates/bolide-testkit/src/encode.rs:262-279 | every column of a packed row holds its own index, inside one byte, wherever in the byte the row started |
| `ZrleTiles.RowsUnpack` | crates/bolide-rfb/src/zrle.rs:187-209 | packed rows unpack to the tile they packed, padding dropped |
| `ZrleTiles.PlainRunsRead` | crates/bolide-rfb/src/zrle.rs:210-216 | plain runs read back as their expansion |
| `ZrleTiles.PaletteRunsRead` | crates/bolide-rfb/src/zrle.rs:217-234 | palette runs read back as their expansion |
| `ZrleTiles.TileRoundTrip` | crates/bolide-rfb/src/zrle.rs:171-248 | every tile, in every one of the six tiling choices with its fallbacks, decodes to its own pixels and stops at its last byte |
| `ZrleRects.TilesRead` | crates/bolide-rfb/src/zrle.rs:146-168 | decoder and encoder walk the same clipped partition of a rect and rebuild it tile by tile |
| `ZrleRects.RectRoundTrip` | crates/bolide-testkit/src/encode.rs:98-115 | a rect's tile stream decodes to the rect and consumes exactly the bytes written |
| `RawRects.RawRoundTrip` | crates/bolide-testkit/src/encode.rs:30-48 | the raw payload has exactly the length the client computes and decodes to the rect |
| `RawRects.ZrleEqualsRaw` | crates/bolide-testkit/src/encode.rs:98-115 | the compressed path equals the raw path pixel for pixel, whatever tiling, rect and following bytes |
| `RawRects.ZrleEqualsRawIff` | crates/bolide-rfb/src/proto.rs:198-232 | over formats with fields inside 32 bits that equality holds for every picture exactly when the fields fit the CPIXEL |
| `RawRects.DecoderTotal` | crates/bolide-rfb/src/zrle.rs:146-168 | on arbitrary bytes and sizes the decoder answers with a protocol error or with exactly w*h opaque pixels |
| `Framebuffers.CheckBounds` | crates/bolide-rfb/src/client.rs:571-579 | a rect is refused exactly when it sticks out of the framebuffer |
| `Framebuffers.BlitRaw` | crates/bolide-rfb/src/client.rs:582-611 | a raw rect is laid over the framebuffer, or nothing changes |
| `Framebuffers.DrawRaw` | crates/bolide-rfb/src/client.rs:601-609 | the loops lay exactly the rect's pixels |
| `Framebuffers.RawRow` | crates/bolide-rfb/src/client.rs:603-608 | one row, pixel by pixel, each to its own four bytes |
| `Framebuffers.CopyOut` | crates/bolide-rfb/src/client.rs:648-652 | the source region's rows, end to end |
| `Framebuffers.BlitRgba` | crates/bolide-rfb/src/client.rs:614-627 | decoded pixels are laid over the framebuffer, or nothing changes |
| `Framebuffers.CopyRect` | crates/bolide-rfb/src/client.rs:635-658 | a region is moved within the framebuffer, or nothing changes |
| `Framebuffers.MoveIsSimultaneous` | crates/bolide-rfb/src/client.rs:635-658 | every destination pixel is the old source pixel for every overlap, every other pixel is untouched |
| `Grid.PlaceAt` | crates/bolide-rfb/src/client.rs:614-627 | laying a tile changes exactly the tile's cells, each to its own pixel |
| `Rasters.Raster.Pixel` | crates/bolide-testkit/src/lib.rs:219-230 | the pixel at a place, or none off the screen |
| `Rasters.Raster.Filled` | crates/bolide-testkit/src/lib.rs:196-206 | a screen of one colour |
| `Screens.FillRect` | crates/bolide-testkit/src/lib.rs:209-216 | exactly the clipped rectangle is painted |
| `Screens.SetPixel` | crates/bolide-testkit/src/lib.rs:212-213 | one pixel changes and no other |
| `Screens.Snapshot` | crates/bolide-testkit/src/server.rs:555-563 | the source region as it was, black where it is off the screen |
| `Screens.Blit` | crates/bolide-testkit/src/server.rs:552-575 | the pixel-at-a-time move shows, at every place, what was at its source before |
| `Screens.BlittedPixel` | crates/bolide-testkit/src/server.rs:552-575 | pixel by pixel, a blit shows what was at each place's source before, black where that is off the screen, and changes nothing else |
| `Screens.SnapshotPixel` | crates/bolide-testkit/src/server.rs:555-563 | a snapshot is the region's pixels row by row, black off the screen |
| `Screens.BlitAgreesWithMove` | crates/bolide-testkit/src/server.rs:552-575 | the server's pixel-at-a-time move and the client's row copy agree on every in-bounds rect |
| `ClientReader.Conn.Bytes` | crates/bolide-rfb/src/client.rs:729-733 | the next bytes of the stream, or its end |
| `ClientReader.Conn.Skip` | crates/bolide-rfb/src/client.rs:736-744 | passes over exactly the bytes named, a kilobyte at a time |
| `ClientReader.Conn.ReadU16` | crates/bolide-rfb/src/client.rs:713-717 | a big-endian field of two bytes |
| `ClientReader.Conn.ReadU32` | crates/bolide-rfb/src/client.rs:719-723 | a big-endian field of four bytes |
| `ClientReader.Session.RawRect` | crates/bolide-rfb/src/client.rs:488-497 | reads a raw rect off the stream and paints it |
| `ClientReader.Session.CopyRectRect` | crates/bolide-rfb/src/client.rs:498-504 | reads a CopyRect and moves its region |
| `ClientReader.Session.ZrleRect` | crates/bolide-rfb/src/client.rs:505-519 | reads, caps, inflates and decodes a ZRLE rect and paints it |
| `ClientReader.Session.Rect` | crates/bolide-rfb/src/client.rs:481-536 | one rect of any encoding: what it does to the framebuffer, the flags and the events, and whether it paints or resizes; an unadvertised one is refused |
| `ClientReader.Session.Rects` | crates/bolide-rfb/src/client.rs:481-536 | every rect of an update in order, up to the first that fails |
| `ClientReader.Session.Conclude` | crates/bolide-rfb/src/client.rs:538-561 | the end of an update: the counter zeroed, one request asked for and counted after a resize or in continuous mode, and only then the paint recorded and announced |
| `ClientReader.Session.Update` | crates/bolide-rfb/src/client.rs:465-562 | a whole update: begun at its first byte, every rect in order, concluded only if none failed |
| `ClientReader.Session.ColourMap` | crates/bolide-rfb/src/client.rs:440-447 | skips a colour map by exactly its size |
| `ClientReader.Session.CutText` | crates/bolide-rfb/src/client.rs:452-458 | capped cut text, lifted from latin-1, recorded and announced |
| `ClientReader.Session.Message` | crates/bolide-rfb/src/client.rs:422-463 | one server message of any type with its events, an unknown one refused; the timeout is armed exactly when the message has a first byte |
| `ClientReads.AlwaysOpaque` | crates/bolide-rfb/src/client.rs:465-562 | whatever bytes arrive, however many messages, and wherever the client gives up, the framebuffer has width*height pixels and all are opaque |
| `Updates.UpdateIff` | crates/bolide-rfb/src/client.rs:465-562 | an update is read exactly when it is its count of rects one after another, each read to its last byte by the client the one before left; it concludes as painting and as resizing exactly when some rect paints and some resizes |
| `Updates.UpdateStops` | crates/bolide-rfb/src/client.rs:481-536 | an update whose next rect fails fails with it, as that rect left the client |
| `Updates.PaintedIffTold` | crates/bolide-rfb/src/client.rs:520-560 | after any bytes, the framebuffer counts as painted exactly when a paint was announced since the last resize |
| `Updates.ColourMapSkipped` | crates/bolide-rfb/src/client.rs:440-447 | a colour map of any size is passed over and changes nothing |
| `Updates.Refused` | crates/bolide-rfb/src/client.rs:448-463 | cut text over 8 MiB, a ZRLE payload over 64 MiB and an unknown message type are refused whatever follows |
| `FakeServer.ZrleWriter.Rect` | crates/bolide-testkit/src/encode.rs:79-94 | a length and one slice of the connection's stream, the rect's tiles joining its history |
| `FakeServer.PickEncoding` | crates/bolide-testkit/src/server.rs:835-845 | the first usable encoding of the client's list, Raw when there is none, as a walk down the list |
| `WireFormat.FirstUsableIff` | crates/bolide-testkit/src/server.rs:835-845 | negotiation picks ZRLE exactly when the list names it before any Raw, and Raw otherwise |
| `FakeServer.Connection.FramebufferUpdate` | crates/bolide-testkit/src/server.rs:811-827 | the whole current screen as one rect |
| `FakeServer.Connection.Reallocate` | crates/bolide-testkit/src/server.rs:519-520 | a resized screen is a new black one |
| `FakeServer.Connection.Perform` | crates/bolide-testkit/src/server.rs:501-548 | what each directive and each client message does to the connection and puts on the wire |
| `WireFormat.ServerBytes` | crates/bolide-testkit/src/server.rs:525-546 | the bytes of each thing a server does, in terms of what it was asked: message and encoding numbers, header fields, lengths |
| `Replica.LastListStands` | crates/bolide-testkit/src/server.rs:501-523 | the list in force is the last one the client sent |
| `Replica.WholePaint` | crates/bolide-rfb/src/client.rs:614-627 | painting a whole framebuffer replaces it |
| `Areas.UnadvertisedRefused` | crates/bolide-rfb/src/client.rs:465-536 | a rect in an encoding that was never advertised is refused by its number, whatever its size and whatever follows |
| `Areas.AreasFollowed` | crates/bolide-rfb/src/client.rs:465-562 | an update of any rects of the server's screen, overlapping or not, raw or in any tiling, leaves the screen's colours wherever a rect reaches and every other pixel as it was |
| `Areas.CoveredIsSame` | crates/bolide-rfb/src/client.rs:465-562 | rects that between them reach every pixel leave a replica |
| `Replica.ScreenFollowed` | crates/bolide-testkit/src/server.rs:811-827 | under either encoding the client ends up showing the screen the server sent |
| `Replica.MoveFollowed` | crates/bolide-testkit/src/server.rs:525-546 | a CopyRect keeps two equal screens equal |
| `Replica.ResizeFollowed` | crates/bolide-rfb/src/client.rs:520-533 | a resize leaves both ends black and of the new size |
| `Replica.ActionArrives` | crates/bolide-testkit/src/server.rs:501-548 | what the client has after each action, in terms of the action: the screen set, a black screen of the size named, the region moved, the text cut, the bell, and the event for it |
| `Replica.RunFollowed` | crates/bolide-testkit/src/server.rs:445-484 | a client in step follows any run to its last byte and stays in step |
| `Replica.ReplicaAtEveryBoundary` | crates/bolide-testkit/src/server.rs:501-548 | at every message boundary of every run the client has the server's size and, after a first whole screen or resize, its colours |
| `Latin1.SurvivesIffPlain` | crates/bolide-rfb/src/proto.rs:426-436 | cut text survives exactly when it is latin-1 without carriage returns |
| `Latin1.CharByChar` | crates/bolide-rfb/src/proto.rs:426-432 | character by character: carriage returns vanish, latin-1 is kept, anything else becomes a question mark |
| `Latin1.SecondTripIsStable` | crates/bolide-rfb/src/proto.rs:426-436 | text that has been through the wire once is not changed by going through again |
| `SessionInner.Inner.BuildRequest` | crates/bolide-rfb/src/session.rs:138-145 | takes the flag, then reads the size: two steps of the step system back to back |
| `SessionInner.Inner.Send` | crates/bolide-rfb/src/session.rs:147-155 | looks at the flag, counts, pushes: three steps back to back, or an error |
| `SessionInner.Inner.MarkDead` | crates/bolide-rfb/src/session.rs:158-163 | the first to swap the flag announces death once; anyone later changes nothing |
| `SessionInner.Inner.KeyBurst` | crates/bolide-rfb/src/session.rs:174-181 | a burst of key events is one queued write |
| `SessionInner.BurstIsItsKeys` | crates/bolide-rfb/src/session.rs:174-181 | the server reads that write back as exactly the burst's key events, one for one and in order |
| `Sessions.StopsKept` | crates/bolide-rfb/src/client.rs:356-420 | a task only stops once the session is dead |
| `SessionProgress.NoStallKept` | crates/bolide-rfb/src/client.rs:538-560 | no step of any task takes away the last thing a continuous session is waiting for |
| `SessionProgress.ContinuousNeverStalls` | crates/bolide-rfb/src/client.rs:148-151 | in every reachable live state after the opening request, a request is queued, being written, on the wire or pending, or an update is coming or being read |
| `SessionProgress.HelpfulHelps` | crates/bolide-rfb/src/client.rs:538-560 | from such a state there is always a step of the tasks or the server that brings the next update nearer |
| `SessionProgress.AnotherUpdateCanArrive` | crates/bolide-rfb/src/client.rs:538-560 | so from every such state another update can be begun, even when the server folds every request it holds |
| `SessionProgress.OneOutstandingIff` | crates/bolide-rfb/src/session.rs:107-110 | when a live continuous session announces an update, exactly one request is outstanding if and only if neither connect nor any refresh counted one after the step in which that update zeroed the counter |
| `SessionProgress.LastZeroing` | crates/bolide-rfb/src/client.rs:538-560 | every run that reaches an announcement splits at the step that last zeroed the counter |
| `SessionProgress.QuietSessionsHaveOne` | crates/bolide-rfb/src/session.rs:107-110 | once connect has returned and no refresh is asking, and while none is called, every update begun from then on is announced with exactly one request outstanding |
| `SessionProgress.OpeningRace` | crates/bolide-rfb/src/client.rs:148-151 | a run without any refresh where two are outstanding at the announcement, after connect has returned |
| `SessionRefresh.StepKeepsSound` | crates/bolide-rfb/src/session.rs:219-251 | every atomic step keeps what the reader, the events and the calls rely on |
| `SessionRefresh.RefreshIsFresh` | crates/bolide-rfb/src/session.rs:219-251 | an Ok answer means an update begun after the floor was read had all its rects in the framebuffer before it was copied |
| `SessionRefresh.NoLostWakeUp` | crates/bolide-rfb/src/session.rs:219-251 | while a refresh waits, everything that could end the wait is still in front of it, and every later painted update and the session's death have put something there |
| `SessionRefresh.WaitEnds` | crates/bolide-rfb/src/session.rs:228-244 | whatever else runs, a wait with such an event in front of it has answered after a bounded number of its own turns: with a framebuffer, unless the session is dead or the call timed out |
| `SessionRefresh.RefreshAnswers` | crates/bolide-rfb/src/session.rs:219-251 | once an update begun after the floor has painted and been finished with, a waiting refresh answers Ok within two turns an event and one more, unless it times out or the session dies |
| `SessionRefresh.ClosedMeansDead` | crates/bolide-rfb/src/session.rs:219-251 | a call that was told the session is closed finds it dead |
| `SessionRefresh.TimedOutMeansLate` | crates/bolide-rfb/src/session.rs:228-251 | a call that was told it timed out did |
| `SessionResizes.FullAfterResize` | crates/bolide-rfb/src/session.rs:138-145 | the first request ever, and the first whose flag was taken after a resize set it, asks for everything and carries that resize's size or a later one |
| `SessionResizes.IncrementalIff` | crates/bolide-rfb/src/session.rs:138-145 | a request goes out incremental exactly when asked to, not first, and with no resize announced since the one before |
| `SessionResizes.ResizeIsFollowedUp` | crates/bolide-rfb/src/client.rs:520-554 | once the resizing update is over and the session lives, such a request is built, being built, in hand or queued |
| `SessionStory.WireIsTheQueue` | crates/bolide-rfb/src/client.rs:356-384 | commands are written in the order they were queued, each once, none skipped |
| `SessionStory.CallIsHeeded` | crates/bolide-rfb/src/session.rs:147-155 | a call that was not refused has queued its own data, or a request as incremental as its caller wanted |
| `SessionStory.CommandsAreCallers` | crates/bolide-rfb/src/session.rs:147-155 | nothing is queued that no caller asked for, but the incremental requests of connect and of the reader |
| `SessionStory.EventsAreTheStory` | crates/bolide-rfb/src/client.rs:520-561 | between updates the events are the whole story: paints numbered without a gap, every size in order, one death, never early |
| `SessionStory.UpdateTakesItsRects` | crates/bolide-rfb/src/client.rs:481-562 | from its first byte to its end an update takes in exactly the rects it announced, and counts as painting or resizing exactly when one of them did |
| `SessionStory.EndingsAreFinal` | crates/bolide-rfb/src/client.rs:396-420 | a closed session stays dead, and a task whose read or write failed does nothing more than end it |
| `SessionSilence.NothingAfterDeath` | crates/bolide-rfb/src/session.rs:147-155 | once the session is dead nothing more is queued than the sends that were already past their check |
| `SessionSilence.LateCallsAreRefused` | crates/bolide-rfb/src/session.rs:147-155 | a call made of a dead session is never sent and never waits: it is answered that the session is closed, or has yet to check |
| `SessionReads.ReaderConcludes` | crates/bolide-rfb/src/client.rs:538-560 | left to itself, the step system's reader takes the counters from the last rect to idle as the read loop over bytes does |
| `SessionReads.MessageFollowed` | crates/bolide-rfb/src/client.rs:422-562 | whatever message the byte reader gets through, the step system's reader has steps of its own to the same counters, flag, size, events and queue |
| `ClientMessages.BuildSetEncodings` | crates/bolide-rfb/src/proto.rs:366-373 | the list's message, its count cut to 16 bits |
| `WireFormat.ClientBytes` | crates/bolide-rfb/src/proto.rs:376-411 | update requests, key and pointer events, byte by byte |
| `WireFormat.FormatBytes` | crates/bolide-rfb/src/proto.rs:359-364 | the pixel format message, byte by byte |
| `WireFormat.EncodingsBytes` | crates/bolide-rfb/src/proto.rs:366-373 | the encodings message: its count, then each encoding in two's complement at its own place |
| `WireFormat.CutTextBytes` | crates/bolide-rfb/src/proto.rs:416-424 | the cut text message: its length, then its latin-1 bytes |
| `ClientMessages.ReadLoop` | crates/bolide-testkit/src/server.rs:697-711 | messages off the stream until it ends or stops meaning anything |
| `ClientMessages.ListRoundTrip` | crates/bolide-testkit/src/server.rs:724-735 | signed encodings survive their two's complement bytes |
| `ClientMessages.MessageRoundTripIff` | crates/bolide-testkit/src/server.rs:713-776 | whatever follows it, a message is parsed back from exactly its own bytes if and only if its count fits its field |
| `ClientMessages.StreamRoundTrip` | crates/bolide-testkit/src/server.rs:697-776 | any list of messages sent back to back is parsed back, to the last byte |
| `ClientMessages.UniquelyDecodable` | crates/bolide-rfb/src/proto.rs:359-424 | no two lists the server would tell apart share their bytes |
| `Civil.CivilIsExact` | crates/bolide-cli/src/state.rs:181-191 | for every integer day the date is a valid Gregorian date and its day number is that day |
| `Civil.DateIsItsDays` | crates/bolide-cli/src/state.rs:181-191 | every valid date is the date of its own day number |
| `Civil.ConsecutiveDates` | crates/bolide-cli/src/state.rs:181-191 | consecutive days have consecutive dates over every month, year and leap day |
| `Civil.StampRebuildsSeconds` | crates/bolide-cli/src/state.rs:172-191 | date, hour, minute and second rebuild the timestamp, negative ones included |
| `Civil.YearOfEraIs` | crates/bolide-cli/src/state.rs:184 | the one-line year of the era is the year the calendar gives |
| `Ard.PaddedIsLossless` | crates/bolide-rfb/src/ard.rs:172-180 | a padded number has exactly the field's width and means the same number |
| `Ard.SecretIsShared` | crates/bolide-rfb/src/ard.rs:60-77 | both ends compute the same secret for any generator, exponents and non-zero modulus |
| `Ard.SecretIsDiffieHellman` | crates/bolide-rfb/src/ard.rs:60-77 | both byte strings have exactly the modulus's length and mean what Diffie-Hellman says: the generator, or whatever the peer sent, to the private exponent, and between honest ends to the product of the two |
| `Ard.SharedBytesAgree` | crates/bolide-rfb/src/ard.rs:60-77 | both ends end up with the same bytes, through the padded public keys |
| `Ard.EcbInPlace` | crates/bolide-rfb/src/ard.rs:126-141 | each whole 16-byte chunk is replaced in place, a short tail left alone |
| `Ard.EcbRoundTrip` | crates/bolide-rfb/src/ard.rs:126-141 | decrypting what was encrypted gives it back |
| `Ard.EcbBlocks` | crates/bolide-rfb/src/ard.rs:126-141 | every whole block is the cipher's output for that block, and the tail is untouched |
| `Ard.PackCredentials` | crates/bolide-rfb/src/ard.rs:92-107 | the two fields and their terminators over the filler, or a refusal when one is too long |
| `Ard.BlockLayout` | crates/bolide-rfb/src/ard.rs:92-107 | 128 bytes, the fields from bytes 0 and 64, each with its NUL and so at most 63 long, filler everywhere else |
| `Ard.ReadField` | crates/bolide-rfb/src/ard.rs:118-121 | the bytes before the first NUL |
| `Ard.WholeIffNulFree` | crates/bolide-rfb/src/ard.rs:109-121 | a field is read back whole exactly when it holds no NUL |
| `Ard.UnpackPacked` | crates/bolide-rfb/src/ard.rs:92-121 | unpacking a block gives each field up to its first NUL, whatever the filler |
| `Ard.ClientResponse` | crates/bolide-rfb/src/ard.rs:146-167 | the sealed block and the client's public key, or the reason there is none |
| `Ard.ServerAccepts` | crates/bolide-testkit/src/server.rs:646-655 | the server accepts exactly when what it unpacks is what it expects |
| `Ard.AnswerOpens` | crates/bolide-rfb/src/ard.rs:146-167 | whatever the challenge, an answer is given only to an allowed group with a public key of its length; it fills the server's two reads, ends with the client's public value, and opens under the client's secret to the credentials, each up to its first NUL |
| `Ard.ExchangeRecovers` | crates/bolide-testkit/src/server.rs:635-655 | end to end, for a modulus of any length: an answer is given exactly when the length is allowed and both fields fit, and the server then recovers the credentials exactly when they hold no NUL |
| `Chord.ParseChord` | crates/bolide-rfb/src/keysym.rs:226-253 | the loop over the segments, two empty ones being the plus key |
| `Chord.JoinedParses` | crates/bolide-rfb/src/keysym.rs:226-253 | joining a chord's names and parsing gives their keysyms in order |
| `Chord.AcceptsExactlyChords` | crates/bolide-rfb/src/keysym.rs:226-253 | a text is accepted exactly when it is the join of a non-empty list of keys, and answers with that list's keysyms |
| `Chord.FailsByName` | crates/bolide-rfb/src/keysym.rs:226-253 | a text that is no chord fails at its first segment that is no key, by that segment's name |
| `Chord.ChordIsUnique` | crates/bolide-rfb/src/keysym.rs:226-253 | no text is two chords |
| `Text.JoinSplit` | crates/bolide-rfb/src/keysym.rs:227 | splitting at a separator loses nothing |
| `Versions.SplitVersion` | crates/bolide-cli/src/update.rs:147-162 | three numbers and an optional prerelease, or no version at all |
| `VersionTexts.ParseWritten` | crates/bolide-cli/src/update.rs:147-162 | a written version reads as its three numbers in order and its prerelease, whatever its build metadata, and as nothing when a number does not fit in 64 bits |
| `VersionTexts.VersionIff` | crates/bolide-cli/src/update.rs:147-162 | a text is a version exactly when it is written as one: digits that fit, no signs, no field missing or left over |
| `Versions.ComparePrerelease` | crates/bolide-cli/src/update.rs:164-185 | the first identifier that differs decides, or the shorter list comes first |
| `Versions.VersionsAreOrdered` | crates/bolide-cli/src/update.rs:136-145 | comparison is a total preorder on the versions that parse: reflexive, reversing, chaining |
| `Versions.IdentifierOrder` | crates/bolide-cli/src/update.rs:172-177 | numeric and textual identifiers are ordered together |
| `VersionTexts.FieldsDecide` | crates/bolide-cli/src/update.rs:136-145 | written versions compare as their first differing number; then a release comes after its prereleases; then the prereleases decide |
| `Versions.IdentifiersDecide` | crates/bolide-cli/src/update.rs:164-185 | the first identifier that does not tie decides; running out first comes first |
| `Versions.PrereleaseBeforeRelease` | crates/bolide-cli/src/update.rs:139-144 | a prerelease comes before its release |
| `Versions.BuildIsIgnored` | crates/bolide-cli/src/update.rs:148 | build metadata changes nothing |
| `NumericPrecedence.DigitsCompareAsNumbersIff` | crates/bolide-cli/src/update.rs:172-177 | exactly when two strings of digits compare as the numbers they are, zeros in front included |
| `NumericPrecedence.NumericPrecedenceIff` | crates/bolide-cli/src/update.rs:172-177 | for numbers without zeros in front, in either order: exactly when the shorter fits in 64 bits, or they are equally long, or the longer one's leading digits are no less than the shorter number |
| `NumericPrecedence.NumberBeforeTextIff` | crates/bolide-cli/src/update.rs:172-177 | a number comes before an identifier that is none exactly when it fits in 64 bits or its digits are outranked at the first difference |
| `NumericPrecedence.TextBeforeIff` | crates/bolide-cli/src/update.rs:176 | text comes first exactly when, at the first place the two differ, it has the lesser character or has ended |
| `NumericPrecedence.HugeNumbersMisplaced` | crates/bolide-cli/src/update.rs:176 | a number that the code puts after one five times as great, and after an identifier that is no number |
| `Fit.EvenIsLeast` | crates/bolide-cli/src/record.rs:89-101 | each side is the least even number of at least two that holds the screen, or the greatest there is |
| `Fit.BoxFits` | crates/bolide-cli/src/record.rs:117-125 | the box is never empty, fits frame and canvas, is the frame when that fits, else touches two edges with its other side the largest that keeps the aspect, or one pixel |
| `Fit.SampleInside` | crates/bolide-cli/src/record.rs:128-138 | floor sampling never leaves the frame |
| `Fit.FittedAt` | crates/bolide-cli/src/record.rs:107-143 | black outside a box centred to within a pixel, the floor-sampled frame inside; black throughout when the frame has no pixels |
| `Fit.FittedPixel` | crates/bolide-cli/src/record.rs:126-140 | a place in the box shows the frame's pixel whose share of the box it begins in |
| `Fit.SameSizeIsItself` | crates/bolide-cli/src/record.rs:110-112 | the early return gives what the sampling would |
| `Fit.OwnScreenIsUnscaled` | crates/bolide-cli/src/record.rs:89-125 | a screen's own frames are unscaled exactly when neither side is 65535 |
| `Fit.CopyRow` | crates/bolide-cli/src/record.rs:130-135 | a row copied whole is the row the sampling would give |
| `Fit.SampleRow` | crates/bolide-cli/src/record.rs:136-140 | a row sampled pixel by pixel |
| `Fit.DrawFitted` | crates/bolide-cli/src/record.rs:107-143 | the loops draw the fitted picture |
| `Drags.PointOnTheLine` | crates/bolide-server/src/actions.rs:186-191 | each held point is between the ends, within half a pixel of the exact line, untouched by the cast, and the last is the end |
| `Drags.WalkIsMonotone` | crates/bolide-server/src/actions.rs:186-191 | the walk never turns back |
| `Actions.ClicksAt` | crates/bolide-server/src/actions.rs:166-174 | one move and then the presses and releases |
| `Actions.ActionClicks` | crates/bolide-server/src/actions.rs:251-270 | each click action presses its own button at its own point as often as its name says |
| `Actions.ScrollClicks` | crates/bolide-server/src/actions.rs:286-306 | a scroll presses its wheel button once a notch, and plans nothing for none |
| `Actions.TypePresses` | crates/bolide-server/src/actions.rs:308-319 | typing presses one key per character, that character's own |
| `Actions.ChordPresses` | crates/bolide-server/src/actions.rs:321-335 | a chord presses its keysyms in the order its text names them |
| `Actions.Drag` | crates/bolide-server/src/actions.rs:177-225 | press, dwell, paced held moves, dwell, release at the end |
| `Actions.DragSleeps` | crates/bolide-server/src/actions.rs:177-225 | the waits add up to two dwells and one step between any two moves |
| `Actions.TypeText` | crates/bolide-server/src/actions.rs:308-319 | a press and a release per character, or the first name nobody knows |
| `Actions.PressChord` | crates/bolide-server/src/actions.rs:321-335 | presses in order, releases in reverse |
| `Actions.PlanIsInside` | crates/bolide-server/src/actions.rs:151-162 | no plan leaves the screen it was planned for; only off-screen coordinates are out of bounds |
| `Plans.DragPlan` | crates/bolide-server/src/actions.rs:272-279 | the drag action, from its own two points: pressed at the start, held points within half a pixel of the line and never turning back, every rest, released at the end |
| `Plans.ClickPlans` | crates/bolide-server/src/actions.rs:251-306 | every click goes to its own point and nowhere else, with its own button as often as its name says, and a scroll once a notch |
| `Plans.MovePlan` | crates/bolide-server/src/actions.rs:281-284 | a move is one pointer event with no button, where it was asked |
| `Plans.WaitPlan` | crates/bolide-server/src/actions.rs:337-349 | a wait sleeps its duration to the millisecond below, at most what 64 bits hold, and not at all when negative or not a number |
| `Plans.TypedKeys` | crates/bolide-server/src/actions.rs:308-319 | one press and release per character, in order, of the key X assigns it |
| `Plans.TypingIsInjective` | crates/bolide-server/src/actions.rs:308-319 | different texts are typed differently, as long as Return and Tab have their X keysyms |
| `Plans.UntypedNames` | crates/bolide-server/src/actions.rs:308-319 | a text that cannot be typed fails at its first control character whose key nobody knows, by name |
| `Plans.ChordPlan` | crates/bolide-server/src/actions.rs:321-335 | a chord presses its keys in the order named and releases them in reverse, and does nothing else |
| `Plans.PlanSleeps` | crates/bolide-server/src/actions.rs:243-350 | nothing but a drag and a wait sleeps |
| `Plans.RefusedIff` | crates/bolide-server/src/actions.rs:151-162 | a plan is refused for a coordinate exactly when the action names one off the screen, and then for the first; otherwise only for an unknown key |
| `Hands.PlanBehaves` | crates/bolide-server/src/actions.rs:243-350 | every plan, whatever was held before it, presses only where the pointer is, releases keys innermost first, and adds nothing to what is held |
| `Hands.DragTouch` | crates/bolide-server/src/actions.rs:194-225 | from any state, a drag ends where it was asked to with no button down |
| `Hands.ChordTouch` | crates/bolide-server/src/actions.rs:321-335 | a chord's releases undo its presses |
| `Hands.Desk.Execute` | crates/bolide-server/src/actions.rs:361-378 | sends a prefix of the plan, the whole of it unless an operation fails, and keeps the cursor at the last pointer event sent |
| `Hands.OrderlyKept` | crates/bolide-server/src/http.rs:314-335 | no interleaving of requests, failed operations and dropped requests breaks into another's plan |
| `Hands.TurnsTouch` | crates/bolide-server/src/http.rs:314-335 | turns that are plans cut anywhere land right one after another, and add nothing to what is held when none was cut |
| `Hands.OnePairOfHands` | crates/bolide-server/src/http.rs:299-336 | the log is each lock holder's own plan, made of the action it arrived with, cut at most at its end, one turn a request, in lock order; nothing lands wrong even after a cut; positions are inside the planned screen; the cursor is the last pointer event; nothing is held while the lock is free unless some plan was cut |

## Left out

- RawRects.ZrleEqualsRaw: rects that reach past coordinate 65536 are excluded, because the encoder's tile
  coordinates wrap there (so too `ZrleRects.RectRoundTrip` and `RawRects.ZrleEqualsRawIff`). No rect inside
  a screen does.
- Replica.ReplicaAtEveryBoundary: excludes ZRLE payloads over 64 MiB and cut text over 8 MiB, which the client
  refuses; a scripted screen of another size without a resize; moves off the screen; and the `Drop` and
  `Shutdown` directives and directives applied during the opening exchange. It asks that the zlib stream be
  lossless.
- SessionRefresh.NoLostWakeUp: no event is lost to the broadcast channel's capacity; in the source a
  subscriber that falls that far behind misses events.
- SessionProgress.AnotherUpdateCanArrive: says such a schedule exists; that a real scheduler and a real server
  take it is not modelled.
- ClientReader.Session.Update: runs alone. Other tasks' steps between its steps, and a dead session's refusal
  to queue the request it asks for, are the subject of `Sessions`.
- ClientReader.Session.Message: says when the timeout is armed, not what a timeout does.
- Ard.ExchangeRecovers: credentials are byte strings; that the server decodes them as lossy UTF-8 is not
  modelled.
- Fit.DrawFitted: a canvas side of zero is excluded; `Fit.ForScreen` never makes one.
- zlib: `Zlib.Codec` is an abstract pair of functions over the history of one stream. The inflate and deflate
  loops are not modelled.
- AES, MD5 and the algorithm of `modpow`: abstract functions, AES invertible per block, modular power by its
  definition. VNC authentication (DES) and the other handshake variants are not modelled.
- Text is a sequence of Unicode characters, not UTF-8.
- Sockets, the length of timeouts and task scheduling beyond interleaving.
- The framebuffer's contents in `Sessions`: there it is a size and a count of writes. Its contents are the
  subject of `Replica`, where messages arrive one after another.
- Writes that fail half way: in `Sessions` a request reaches the wire whole or the session fails.
- Pixel formats with a shift of 32 or more, or more than 32 bits per pixel: `PixelFormats.Format` leaves them
  out of the colour arithmetic, where the source's shifts would overflow; they do survive the 16-byte block
  (`PixelFormats.FormatRoundTrip`), and their pixels are read and written as four bytes
  (`PixelFormats.ReadPixel`, `PixelFormats.WritePixel`).
- The final length check of `decode_tile`: every form is shown to produce exactly the tile's pixels, so the
  check cannot fail and is not repeated. Overflow of the cursor's position is not modelled.
- The key-name and alias tables: a lookup function, with the plus key at 0x2b.
- Durations as `f64`: `Actions.Duration` is a real number or not a number; infinities and rounding are not
  modelled.
- The text rendering of a timestamp.
- The handler's answers. A plan cut part way leaves held what it had pressed; the source has nothing that lets
  go, and so neither has `Hands`.
- HTTP routing, JSON, PNG, ffmpeg, files, processes and command-line parsing.
