# Verified model of vmlab's display, agent and log paths

vmlab runs labs of virtual machines. This project models the parts of it where bytes cross a
boundary that another program, another thread or a failing disk controls, and proves what those
parts are for.

* **The VMLABDSP shared-memory display** (`guest/vdisplay-windows`). A guest driver publishes
  frames into a triple-buffered region while a host reads it without a lock. `FrameProtocol` is
  the protocol as interleaved atomic steps, with an invariant kept by every step; `FrameRuns`
  builds runs of it; `Publish` is the code over a byte array, shown to be one uninterrupted
  publication of the protocol, and `Region` the region it starts from. `RequestProtocol` is the reverse handshake that changes modes.
  `DisplayLayout` and `Edid` are the layout checks, the mode list and the monitor description.
* **The RFB client** (`src/vnc.rs`). `Rfb` is the message format, `RfbEvents` what a recorder
  makes of it, `Wire` the same by stream offset; `Vnc` the client that streams updates, `VncServer` a
  server that reads what it sends; `Canvas` and `Capture` the one-shot picture.
* **The native frame stream** (`src/hvdisplay.rs`). `NativeFrames` decodes surface, frame and
  cursor packets and gives frames back. `Screen` defines replay of events once, for both streams.
* **The agent frame parser** of the bench (`hv/bench/lib.py`): `AgentFrames`.
* **Logs** (`src/logs.rs`): `AppendLog` (rotation under failures) and `Tail` (reading backwards).
* **Names, paths and text**: `Typescript`, `Paths`, `Instance`; and the bench's packet builder,
  `Netpeer`.

`Bytes`, `Lines` and `Rows` hold what several of these share: fixed-width words, the lines of a
text, packed rows of pixels.

Code that changes things in place is a class or a method over an array, proved equal to a function
of the old state; the properties are then lemmas about that function. Formats are also pinned by
address and value, so that a writer and a reader that err in the same way are not taken for right.

Five promises are not met in full by the code. Each is stated as an exact condition, in both
directions, with inputs on the failing side:

* A lock-free snapshot can mix the header words of two frames. It is coherent in every interleaving
  exactly when the two frames share a mode (`FrameRuns.CoherentIffSameMode`).
* The agent parser drops garbage and then waits for another chunk before it looks at the frame behind
  it. It finds the frame exactly when the first magic does not start too late
  (`AgentFrames.RecvSucceedsIff`).
* The tail of a log is that of the whole file exactly when the budget holds enough newlines
  (`Tail.TailWithLen`); a last line longer than the budget is lost (`Tail.LongLineLost`).
* Two instances with different slugs share a name exactly when both are long with the same cut and
  the same short hash, or one is spelled like the shortened form of the other
  (`Instance.SameNameIff`); every long instance has such a double (`Instance.ShortenedCollides`).
* The bytes of a captured pixel are found with 32-bit index arithmetic, which is exact throughout a
  rectangle exactly when it has at most 2^30 pixels (`Canvas.ByteIndexExact`); `Canvas.WrappedPixel`
  names the first pixel that is not.

## Model

| member | source | states |
|---|---|---|
| `DisplayLayout.AcceptableIsValid` | guest/vdisplay-windows/protocol.h:95-103 | The chain of checks, with its wrapping 64-bit product, accepts a layout if and only if its three buffers lie behind header and cursor inside the region, page-aligned, and hold the largest mode. |
| `DisplayLayout.ValidateIff` | guest/vdisplay-windows/protocol.h:87-106 | A layout is taken exactly from a region that announces this protocol and whose words are valid for its size; every mode it supports fits a buffer. |
| `DisplayLayout.ValidateReads` | guest/vdisplay-windows/protocol.h:87-106 | The same by address, both ways: a region is accepted exactly when its words, each at its place, meet these bounds, and the layout is those words. |
| `DisplayLayout.SupportsIsTheRectangle` | guest/vdisplay-windows/protocol.h:80-84 | On a valid layout the supported modes are exactly the non-empty ones up to the maximum in both dimensions. |
| `DisplayLayout.Modes` | guest/vdisplay-windows/protocol.h:131-141 | The loop leaves the mode list in the output array and returns its length, at most twelve. |
| `DisplayLayout.PreferredIs` | guest/vdisplay-windows/protocol.h:125-129 | The preferred mode is the requested one within the maximum, else 1920x1080 if the maximum allows it, else the maximum. |
| `DisplayLayout.ModeListIsExact` | guest/vdisplay-windows/protocol.h:125-141 | The list has no duplicates, starts with that mode, and holds exactly the supported modes that are it or common. |
| `DisplayLayout.ShippedModes` | guest/vdisplay-windows/protocol.h:131-141 | The list of a 3840x2160 region nobody asked a mode of, mode by mode. |
| `FrameProtocol.StepKeepsInv` | guest/vdisplay-windows/protocol.h:143-165 | Every atomic step of publisher and reader keeps the invariant on words, buffers and reader. |
| `FrameProtocol.RunKeepsInv` | guest/vdisplay-windows/protocol.h:143-165 | So does every run, in every interleaving. |
| `FrameProtocol.CheckKeepsInv` | guest/vdisplay-windows/shm.py:47-51 | Header words torn between two frames never describe bytes outside a buffer, so the reader never raises its error. |
| `FrameProtocol.OutsideIffTooLong` | guest/vdisplay-windows/shm.py:46-50 | Of the reader's two bounds the one on the region follows from the one on the stride. |
| `FrameProtocol.Snapshot` | guest/vdisplay-windows/shm.py:41-55 | In every run a snapshot accepted with fewer than 2^32 publications between its two sequence reads had none in between; each header word is of that frame or its successor; it holds a frame's bytes exactly when the driver is up and the words describe a frame, and they are those of the one frame the index names; with a shared mode the tuple is coherent and the bytes are exactly that frame's pixels. |
| `FrameProtocol.SharedModeIsExact` | guest/vdisplay-windows/shm.py:41-55 | If the next frame, when there is one, has the same mode, the header tuple is that of one published frame, and the bytes are its pixels, or none exactly when the driver is down or the words describe no frame. |
| `FrameProtocol.FrameSurvivesTwoPublications` | guest/vdisplay-windows/protocol.h:148-151 | Over every run a published frame survives the next two publications byte for byte: while they are under way and after the second, until a third begins. |
| `FrameRuns.UninterruptedPublication` | guest/vdisplay-windows/protocol.h:143-165 | The publisher's ordered steps, run alone, fill the next buffer, set every frame word, bump the sequence word and change nothing else. |
| `FrameRuns.MixedSnapshot` | guest/vdisplay-windows/shm.py:41-55 | For every two frames of different modes there is a run whose accepted snapshot, of a driver that is up, mixes their header words. |
| `FrameRuns.CoherentIffSameMode` | guest/vdisplay-windows/shm.py:41-55 | All snapshots around a publication are coherent if and only if the new frame has the mode of the old one. |
| `FrameProtocol.GivesUpOnlyWhenOutrun` | guest/vdisplay-windows/shm.py:41-55 | In every run a reader that gives up had at least twenty publications completed against it. |
| `FrameRuns.TwentyOutrun` | guest/vdisplay-windows/shm.py:41-55 | And twenty can be enough: there is such a run for every frame the layout takes. |
| `FrameRuns.UndisturbedSnapshot` | guest/vdisplay-windows/shm.py:41-53 | A reader nobody disturbs gets the header and exactly the pixels of the last published frame, up to 3840 by 2160 pixels, and no pixels of a larger one. |
| `Rows.PackedAt` | guest/vdisplay-windows/protocol.h:152-154 | Byte x of source row y is byte x of packed row y. |
| `Publish.CopyRows` | guest/vdisplay-windows/protocol.h:152-154 | The row loop writes exactly the packed rows over the destination. |
| `Publish.WriteHeader` | guest/vdisplay-windows/protocol.h:155-160 | The nine header writes, in the protocol's order. |
| `Publish.Publish` | guest/vdisplay-windows/protocol.h:143-165 | It succeeds if and only if the mode is supported, the pitch holds a row and the index word is below three; else no byte changes; on success the region is the old one with the frame published, and its header says so by address: sequence at 0x110 one higher, next index at 0x114, width, height, pitch and format from 0x118, four zero damage words. |
| `Publish.WordAddresses` | guest/vdisplay-windows/shm.py:42-44 | Where the reader finds each frame word. |
| `Publish.PublishedPixel` | guest/vdisplay-windows/protocol.h:149-154 | Byte x of source row y is at offset plus index times stride plus y times the packed row plus x. |
| `Publish.PublishedBytesEffect` | guest/vdisplay-windows/protocol.h:151-163 | Seen as words and buffers that is the protocol's publication, and no byte outside the frame words and the next buffer's frame changes. |
| `Publish.PublishRefinesProtocol` | guest/vdisplay-windows/protocol.h:143-165 | The bytes left are those of a state the protocol reaches by its own steps. |
| `Region.InitialRegionValidates` | guest/vdisplay-windows/shm.py:24-30 | The driver takes from the header the host tool writes exactly the layout the tool meant, for every region size the tool accepts. |
| `Region.InitializedIsInit` | guest/vdisplay-windows/shm.py:24-31 | Every region the tool initializes is a valid start of the frame protocol, so the theorems about its runs apply. |
| `Region.CanPublish` | guest/vdisplay-windows/protocol.h:145-147 | From there the driver can begin to publish any source that holds a supported mode. |
| `RequestProtocol.StepKeepsInv` | guest/vdisplay-windows/protocol.h:113-123 | Every step of host and guest keeps the handshake's invariant. |
| `RequestProtocol.HeldRequest` | guest/vdisplay-windows/driver.cpp:338-348 | In every interleaving the request the device holds was read with no request completing in between and takes each dimension from that request or its successor. |
| `RequestProtocol.TornModesAreSupported` | guest/vdisplay-windows/shm.py:35-37 | Width and height torn from two requests the host may send are still a mode the guest supports. |
| `RequestProtocol.AcceptableIff` | guest/vdisplay-windows/protocol.h:116-118 | The guest takes the zero request and the modes within the maximum and nothing else; the host sends exactly the latter. |
| `RequestProtocol.QuietTickSettles` | guest/vdisplay-windows/driver.cpp:337-348 | Once the host is quiet one tick leaves the device with exactly the last request; it replaces what it holds if and only if that request is acceptable and its sequence differs. |
| `Edid.Edid` | guest/vdisplay-windows/protocol.h:176-225 | The writes leave the monitor description for the layout and request. |
| `Edid.SumBytes` | guest/vdisplay-windows/protocol.h:222-223 | The 8-bit running sum is the sum modulo 256. |
| `Edid.ParseEdid` | guest/vdisplay-windows/protocol.h:227-239 | The parser, on any bytes, accepts and refuses as specified. |
| `Edid.SumsToZero` | guest/vdisplay-windows/protocol.h:222-224 | Every description sums to zero modulo 256. |
| `Edid.EdidRoundTrip` | guest/vdisplay-windows/protocol.h:176-239 | For every valid layout the parser accepts the description and recovers the maximum, and the request if and only if its dimensions have 16 bits. |
| `Edid.ModeListsAgree` | guest/vdisplay-windows/driver.cpp:385-416 | The mode list computed from the parsed description is the one computed from the layout, so the two callbacks offer the same modes. |
| `Edid.TimingShows` | guest/vdisplay-windows/protocol.h:197-204 | A reader of the detailed timing decodes the mode put there; the pixel clock exactly when it has 16 bits. |
| `Edid.TimingShowsPreferred` | guest/vdisplay-windows/protocol.h:194-204 | The timing shows the preferred mode if its dimensions have 12 bits, else 1920x1080. |
| `Edid.TimingIsSixty` | guest/vdisplay-windows/protocol.h:198-204 | Pixel clock and blanking, as a reader decodes them, make 60 frames a second, rounded down to 10 kHz. |
| `Edid.IdentityIs` | guest/vdisplay-windows/protocol.h:176-215 | Header, maker, version, sizes in centimetres and millimetres, sync, names and unused fields as a reader of the block finds them. |
| `Edid.ParsedReads` | guest/vdisplay-windows/protocol.h:227-239 | What an accepted block says, by address. |
| `Edid.CorruptionRefused` | guest/vdisplay-windows/protocol.h:230-232 | A description with any one byte changed is refused. |
| `Rfb.ParseOfEncoding` | src/vnc.rs:224-343 | Every well-formed server message is read back exactly, and the stream stands right behind it. |
| `Rfb.EncodeOfParse` | src/vnc.rs:224-343 | Whatever is read is the encoding of a well-formed message: no byte is lost or read twice. |
| `Wire.HeadIs` | src/vnc.rs:268-272 | Which stream bytes are the rectangle's place, size and encoding. |
| `Wire.RectIs` | src/vnc.rs:267-343 | A rectangle is read exactly when its encoding's registered number was asked for and all its bytes are there; the stream then stands behind them. |
| `Wire.MessageIs` | src/vnc.rs:224-263 | Where colour maps, text and bells end, how many rectangles an update has, and that other types are refused. |
| `Wire.RawCovers` | src/vnc.rs:274-278 | Which screen pixels a raw rectangle covers: those at its place and within its width and height. |
| `Wire.RawPaints` | src/vnc.rs:274-278 | Which four stream bytes each pixel of a raw rectangle is, blue first. |
| `Wire.CursorIs` | src/vnc.rs:284-309 | Hotspot and size of a cursor, and the alpha cursor's pixels with blue and red exchanged. |
| `Wire.RichCursorIs` | src/vnc.rs:310-335 | Each byte of a rich cursor's pixel by its place in the stream, opaque exactly where its mask bit there is set. |
| `Wire.ResizeIs` | src/vnc.rs:279-283 | A resize announces the width and height of its header. |
| `Screen.SwappedIs` | src/vnc.rs:295-300 | Whole pixels only, bytes 2, 1, 0, 3 of each. |
| `RfbEvents.DecodeRich` | src/vnc.rs:310-335 | The double loop over pixels and mask yields the cursor row by row. |
| `RfbEvents.RichAt` | src/vnc.rs:317-328 | The four bytes at a pixel's place are red, green and blue of the pixel sent and 255 or 0 as its mask bit is set or not. |
| `RfbEvents.RichAlpha` | src/vnc.rs:314-328 | The alpha is the bit the server packed. |
| `RfbEvents.MaskBits` | src/vnc.rs:320-320 | The bits of a mask byte from the most significant on. |
| `RfbEvents.MaskPlace` | src/vnc.rs:314-320 | A mask row takes the least number of whole bytes; which byte holds a pixel's bit. |
| `RfbEvents.UnpackMask` | src/vnc.rs:314-320 | Whatever bits a server packs into mask rows, the bit read for a pixel is the one packed. |
| `RfbEvents.UpdatesOfMessages` | src/vnc.rs:224-263 | For any messages ending in an update, asking once per update yields each update's rectangles in order and skips the rest exactly. |
| `Vnc.VncClient.ReadHead` | src/vnc.rs:268-272 | The rectangle header is the five big-endian fields, or an error for a short stream. |
| `Vnc.VncClient.ReadBody` | src/vnc.rs:425-444 | The payload an encoding announces, in either mode, or an error exactly where the format has none. |
| `Vnc.VncClient.ReadStreamRect` | src/vnc.rs:267-343 | One rectangle decoded to its event; a resize and nothing else changes the size held. |
| `Vnc.VncClient.ReadUpdateRects` | src/vnc.rs:230-238 | The events of all rectangles in order, whether one was a resize, and the size after. |
| `Vnc.VncClient.SkipOther` | src/vnc.rs:247-260 | A message that is no update is read past exactly, or refused exactly when malformed. |
| `Vnc.VncClient.StartStream` | src/vnc.rs:201-215 | Afterwards exactly one request is outstanding: the whole screen, non-incremental. |
| `Vnc.VncClient.NextUpdate` | src/vnc.rs:224-263 | It returns the next update of the stream and sends exactly one request, for the size announced last, non-incremental if and only if the update resized; after an error nothing was sent. |
| `Vnc.StreamIsUnderstood` | src/vnc.rs:201-215 | A server reading all a streaming client ever sent, by RFC 6143 alone, finds the pixel format, the four encodings by number, and exactly the requests, in order, each for the whole screen from (0, 0). |
| `Vnc.RequestBytes` | src/vnc.rs:346-354 | The ten bytes of one request are read back as that request. |
| `VncServer.BgrxOrder` | src/vnc.rs:201-205 | The pixel format asked for puts a colour on the wire as blue, green, red. |
| `Vnc.SummaryIs` | src/vnc.rs:230-243 | The loop's fold is the update's events, the existence of a resize and the last size. |
| `Canvas.ByteIndexExact` | src/vnc.rs:513-513 | The 32-bit index arithmetic of a rectangle is exact if and only if it has at most 2^30 pixels. |
| `Canvas.Canvas.constructor` | src/vnc.rs:493-503 | A new canvas has every pixel uncovered. |
| `Canvas.Canvas.Put` | src/vnc.rs:515-521 | One pixel changes, and the counter stays the number of pixels never painted. |
| `Canvas.Canvas.Paint` | src/vnc.rs:506-525 | A rectangle off the screen is refused and changes nothing; any other is painted row by row. |
| `Canvas.PaintedRowsAt` | src/vnc.rs:511-523 | After painting, a cell inside the rectangle has its pixel's colour and any other is unchanged. |
| `Canvas.Canvas.Complete` | src/vnc.rs:527-529 | The counter is zero if and only if every pixel was painted. |
| `Canvas.PaintShows` | src/vnc.rs:506-525 | Painting a rectangle of any size shows what replaying it, with the source's index arithmetic, shows. |
| `Canvas.ColourIsPixels` | src/vnc.rs:511-523 | Something is painted exactly where replay shows a pixel, and in that pixel's colour if no rectangle exceeds 2^30 pixels. |
| `Capture.ReadRect` | src/vnc.rs:425-444 | It succeeds if and only if the rectangle parses and lies on the screen, or announces a non-empty size; the canvas then shows the events so far. |
| `Capture.ReadRects` | src/vnc.rs:385-387 | All rectangles of an update, each against the size announced before it; success exactly when all can be taken. |
| `Capture.TakePicture` | src/vnc.rs:388-390 | There is a picture if and only if no pixel of the screen is missing, and each of its pixels is the one painted there last. |
| `Capture.TrueColours` | src/vnc.rs:506-525 | The picture's pixel at y times the width plus x is the one replay shows, if no rectangle exceeds 2^30 pixels. |
| `Capture.CaptureIsUnderstood` | src/vnc.rs:367-378 | A server reads the pixel format, the raw encoding alone, and exactly the requests. |
| `Capture.AskedWhole` | src/vnc.rs:414-422 | Every request of a capture is for the whole screen, never for changes only, and the first is for the size told at connecting. |
| `Capture.Assemble` | src/vnc.rs:380-411 | The loop ends at the first update that completes the picture, or at a message that cannot be taken; one whole-screen request follows each update before. |
| `Capture.CaptureInner` | src/vnc.rs:367-411 | The picture has the size announced last and each pixel is the one painted there last since, whatever updates, resizes and other messages arrive; exactly when it succeeds, and exactly what is sent. |
| `NativeFrames.Read` | src/hvdisplay.rs:109-126 | One read for contiguous rows and a read per row give the same bytes and fail alike, for every surface, also where the 32-bit row length wraps. |
| `NativeFrames.TightRegion` | src/hvdisplay.rs:116-119 | Rows without gaps are one stretch of the file. |
| `NativeFrames.FrameReader.ReadDamage` | src/hvdisplay.rs:349-363 | The clipped damage in order, as events; every access is to the frame's own buffer. |
| `NativeFrames.FrameReader.Decode` | src/hvdisplay.rs:326-394 | The events and next surface of each kind of packet; a frame is given back exactly once, after all that was read for it; nothing is read for a placeholder or a superseded surface. |
| `NativeFrames.DecodedExactly` | src/hvdisplay.rs:326-394 | What configures, cursors and other packets decode to, field by field, which configures are refused, and that placeholders and superseded frames show nothing. |
| `NativeFrames.FrameShows` | src/hvdisplay.rs:337-367 | A frame of the surface whose buffer holds it always decodes, and replay shows the buffer's pixel at y times the stride plus four x under each damage rectangle. |
| `NativeFrames.ClipCovers` | src/hvdisplay.rs:350-352 | Clipping keeps exactly the damaged pixels that lie on the surface. |
| `NativeFrames.DamageShows` | src/hvdisplay.rs:349-363 | Replay shows the frame where there was damage and what was there before elsewhere. |
| `NativeFrames.MirrorsIffPromised` | src/hvdisplay.rs:337-367 | After a frame the replayed screen equals it if and only if every pixel was damaged or had not changed. |
| `NativeFrames.RunMirrors` | src/hvdisplay.rs:309-323 | Over every run of configures, frames, placeholders, superseded frames and cursor packets the replayed screen has the surface's size and shows the latest real frame. |
| `NativeFrames.RunSends` | src/hvdisplay.rs:309-323 | The events of a run are those of the batches the reader thread sends, one batch per packet. |
| `NativeFrames.Connect` | src/hvdisplay.rs:252-286 | The first configure gives surface and size; a malformed one, or none, is an error. |
| `NativeFrames.StreamMirrors` | src/hvdisplay.rs:309-323 | From the size told at connecting on, replaying the batches sent shows a screen of the surface's size with the latest real frame on it. |
| `NativeFrames.ReadFrames` | src/hvdisplay.rs:309-323 | One batch per packet up to the first failure, and one release per frame decoded, in order. |
| `AgentFrames.AgentClient.RecvFrame` | hv/bench/lib.py:363-394 | The loop returns, keeps and consumes what the specification says. |
| `AgentFrames.RecvIsNext` | hv/bench/lib.py:363-394 | For every stream and chunking, a frame returned is the next one of the whole-stream decode, and a failed call takes none away. |
| `AgentFrames.RecvSucceedsIff` | hv/bench/lib.py:371-394 | A call returns a frame if and only if the stream holds one and the first magic starts no later than three bytes before the last chunk, or at the very start. |
| `AgentFrames.GarbageHidesFrame` | hv/bench/lib.py:371-375 | One byte of garbage before a whole frame in the last chunk: the call fails with the frame in its buffer. |
| `AgentFrames.RecvManyIsPrefix` | hv/bench/lib.py:363-394 | Over any number of calls the frames returned are an in-order prefix of the decode. |
| `AgentFrames.DecodeOfEncodeAll` | hv/bench/lib.py:269-276 | Decoding frames sent back to back gives those frames. |
| `AgentFrames.EncodeIs` | hv/bench/lib.py:269-276 | A frame byte by byte: magic, length, kind, channel, payload. |
| `AgentFrames.FramesRecovered` | hv/bench/lib.py:363-394 | Frames sent back to back are all returned, however they are cut into chunks, with nothing left over. |
| `Tail.WindowAnswer` | src/logs.rs:285-312 | What one window yields is a suffix of the whole-file answer, and when it is all of it. |
| `Tail.TailWithLen` | src/logs.rs:274-313 | The lines are a suffix of the whole file's last n lines, and equal to them if and only if the file fits the 4 MiB budget, or the budget holds more than n newlines, or n and an unended last line. |
| `Tail.LongLineLost` | src/logs.rs:300-309 | A file past the budget whose last 4 MiB hold no newline yields no line at all, though the whole file has one. |
| `Tail.LineEndings` | src/logs.rs:310 | A line feed, with or without a carriage return before it, ends a line. |
| `Tail.InexactExample` | src/logs.rs:300-309 | One byte more than the budget without a newline is such a file. |
| `Lines.PiecesAre` | src/logs.rs:310-310 | The pieces of a text are the text cut behind each newline. |
| `Lines.StripIs` | src/logs.rs:310-310 | A line loses its newline and one carriage return before it, and nothing else. |
| `AppendLog.AppendLog.OpenWithMax` | src/logs.rs:46-66 | The state after opening, for every way opening can go. |
| `AppendLog.AppendLog.RotateNow` | src/logs.rs:86-102 | The state after rotation, rename failing or not. |
| `AppendLog.AppendLog.WriteText` | src/logs.rs:69-78 | The state after a write, for every partial failure. |
| `AppendLog.RunRetains` | src/logs.rs:69-102 | For every run, whatever fails, previous file and live file together are the end of all that reached the files: all of it, or at least a cap's worth. |
| `AppendLog.OpenRetains` | src/logs.rs:46-66 | That holds from opening on, for any files found. |
| `AppendLog.EveryByteArrives` | src/logs.rs:69-102 | In every run in which reopening and writing work, renames failing or not, every byte written arrives, the last text ends the live file, and the counter is that file's length. |
| `AppendLog.CapHolds` | src/logs.rs:69-102 | While no rename fails either, the cap stays and the live file stays below it plus the last write. |
| `AppendLog.WriteIs` | src/logs.rs:69-102 | One stored write: appended below the cap; at it, a new file with the old one kept, or, if the rename fails, appended with the cap lifted. |
| `AppendLog.LiftedCapAppends` | src/logs.rs:92-99 | After a failed rename the file only grows. |
| `Typescript.TempleosTypescript` | src/agent_asset.rs:178-202 | The loops produce preamble, one statement per kept line, and trailer. |
| `Typescript.LexOfEscape` | src/agent_asset.rs:189-195 | For every line, lexing the escaped literal gives the line back; no literal ends early. |
| `Typescript.LexOfTypescript` | src/agent_asset.rs:178-202 | For every source, lexing the typescript recovers exactly its trimmed lines that are neither blank nor a comment. |
| `Typescript.TrimEndIs` | src/agent_asset.rs:183-183 | All white space at the end of a line goes, and nothing else. |
| `Typescript.DroppedIff` | src/agent_asset.rs:184-187 | Exactly lines that are blank or whose first two visible characters are slashes are dropped. |
| `Typescript.KeptConcat` | src/agent_asset.rs:182-187 | Lines are judged one by one, in order. |
| `Typescript.TypescriptOfLanded` | src/agent_asset.rs:178-202 | Typing the source that lands types the same text again. |
| `Netpeer.Checksum` | hv/bench/netpeer.c:80-86 | The loops compute the complement of the folded sum of 16-bit words, the accumulator wrapping at 32 bits. |
| `Netpeer.FoldIsModular` | hv/bench/netpeer.c:84-84 | Folding keeps the value modulo 65535, and gives zero only for zero. |
| `Netpeer.ChecksumVerifies` | hv/bench/netpeer.c:80-86 | Bytes of any length, odd ones included, that carry their own checksum at any word check to zero, also where the 32-bit accumulator has wrapped. |
| `Netpeer.BuildUdpFrame` | hv/bench/netpeer.c:88-127 | The writes leave Ethernet, IPv4 and UDP headers and the payload, over any old contents. |
| `Netpeer.FrameFields` | hv/bench/netpeer.c:88-127 | Every field of the three headers as a reader finds it, and the payload. |
| `Netpeer.HeaderVerifies` | hv/bench/netpeer.c:88-127 | Every built IP header checks to zero. |
| `Netpeer.PayloadRecoveredIff` | hv/bench/netpeer.c:153-160 | The reader recovers the payload length if and only if it is at most 65507. |
| `Netpeer.FramesArrive` | hv/bench/netpeer.c:188-193 | Frames sent arrive unchanged and in order up to the first longer than the cap. |
| `Netpeer.ShortFramesArrive` | hv/bench/netpeer.c:254-258 | All frames arrive if and only if none is longer than 65554 bytes. |
| `Paths.FitsIff` | src/paths.rs:105-120 | Every socket path of every lab and machine fits if and only if the runtime base has at most 37 bytes: the documented bound is tight. |
| `Paths.ReadableIff` | src/paths.rs:113-166 | Exactly which lab and machine directories keep their names, and what the others become. |
| `Paths.DirectoriesDistinct` | src/paths.rs:113-166 | If the truncated hash separates the names in use, different machines get different directories. |
| `Instance.MakeName` | src/instance.rs:115-145 | The slug loop and the cutting compute the effective name or the error. |
| `Instance.EffectiveNameOk` | src/instance.rs:115-145 | The name is a DNS label and an instance of the declared one; replacing the instance by its slug changes nothing; it fails exactly when the slug is empty or the two cannot be cut to 63. |
| `Instance.SlugIsWords` | src/instance.rs:116-124 | The slug is the runs of letters and digits of the lowered instance, joined by hyphens. |
| `Instance.LongName` | src/instance.rs:133-144 | A long name is a prefix of the slug and its hash, and uses 63 characters, or 62 where the cut fell behind a hyphen. |
| `Instance.SameNameIff` | src/instance.rs:111-145 | Two instances that have names share one if and only if their slugs are equal, or both are long with the same cut and the same short hash, or exactly one is long and the other is spelled like its shortened form. |
| `Instance.ShortenedCollides` | src/instance.rs:111-145 | For every long instance and every hash, the instance spelled like its shortened slug gets the same name. |
| `Instance.LabFile.Adopt` | src/instance.rs:176-186 | The file takes the name exactly when it belongs to the declared one, and is unchanged otherwise. |
| `Instance.BelongsIff` | src/instance.rs:166-172 | A name belongs to a declared one exactly if it is that, or that, a hyphen and more. |

## Left out

- Memory ordering below sequential consistency: aligned words are atomic and steps interleave; the release fence is not modelled, and no hardware model is.
- The cursor region, heartbeat, build and acknowledgement words of VMLABDSP: they are written by the same driver but carry no protocol of their own. The state word a snapshot reads is an input.
- More than one host writer of mode requests.
- Windows and IddCx calls, the worker thread, doorbells and timers of the guest driver.
- The RFB handshake, timeouts, and keyboard and pointer messages.
- NativeFrames.StreamMirrors: is about surfaces of 16-bit dimensions, because the events it replays cannot state larger ones.
- capture_blocking and the input connection of src/hvdisplay.rs: they reuse the decoding modelled here.
- The bench's timeouts and reset monitor: both end a receive call, as the end of the chunks does.
- Lossy UTF-8 decoding and read errors in the log tail; a file that changes while it is read.
- `str::lines` inside log parsing, log enumeration and event formatting: easy members.
- SHA-256 and `char::to_lowercase`: parameters, of which only the length and alphabet of the result are used.
- TempleOS itself: the typescript is lexed, not compiled.
- ARP replies, counters, short reads and writes in the bench's packet peer.
- Configuration, templates, networking and the daemons of the repository.
