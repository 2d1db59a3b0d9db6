# Verified model of the labs' drivers and of the collaborative editor

The repository holds device drivers for MINIX (programmable timer, keyboard, mouse, linear framebuffer)
and a text editor built on them, which two machines can use together over a serial line. This project
models, in Dafny, the parts that hold state:

- **Framebuffer** (`Raster`, `Video`). The driver draws into a flat byte array from nested loops with
  16-bit coordinates. `Raster` says what a sequence of draws means pixel by pixel; `Video` is the driver.
- **Mouse** (`MouseStream`, `MousePacket`, `Mouse`, `MouseCommand`). A byte-at-a-time decoder with
  resynchronisation, a packet parser, two event loops and a bounded retry protocol. `MouseStream` compares
  the decoder with a batch decoder over every event sequence.
- **Keyboard** (`Kbc`, `Scancodes`, `Keyboard`). Three copies of the E0-prefix assembler inside event
  loops, one with an idle timer.
- **Timer** (`Timer`). The port sequence of the driver against an 8254 (its control word and read-back
  command as the Intel 8254 datasheet defines them).
- **Editor** (`TextDoc`, `EditorState`, `TextStore`, `Editor`). A document is rows of bytes and also the one
  text they spell; every edit is a splice. `TextStore` is the growable line array with its buffers,
  terminators and failing allocations; `Editor` adds cursors, selection and clipboard.
- **Collaborative editing** (`SerialLink`, `DeltaSync`, `KeyMeaning`, `PacketMeaning`, `CoEditing`, `PeerBuffers`,
  `PeerEditor`, `FileShare`, `Session`). Packets on the wire, what each key and each packet means for the text,
  what each key announces, exactly when the two documents stay equal, and exactly when the peer's own cursor and
  selection stay inside its document.
- **Files** (`FileText`) and **syntax highlighting** (`HighlightCache`).

Port reads, notifications, received bytes, allocation outcomes and return codes of system calls are arbitrary
inputs, so the theorems range over every run. Allocations are granted or refused by an arbitrary sequence of
outcomes, and a fallible operation succeeds exactly when every allocation it makes is granted. Where a promise
fails, the code is kept as it is and the condition under which it holds is proved in both directions.

Code that the model follows against its own documentation:

- `lab4/mouse.h:16` defines `IBF` as bit 0, the output-buffer bit; the controller's input-full bit is bit 1.
- `lab4/mouse.c:42-59` returns early without clearing `packet_ready`, so a packet can be counted again.
- `lab4/mouse.c:103-119` reads the response into an uninitialised variable: a failed read of the response lets whatever it
  held decide.
- `proj/code/model/editor/editor.h:202` says the text of a loaded line need not be terminated; the code copies
  one byte beyond it as the terminator (`proj/code/model/editor/editor.c:568`).
- `proj/code/model/editor/editor.h:211` says that ending a load resets the cursor; the code only drops the last row.
- `proj/code/model/editor/editor.h:167` says an active selection is not empty; a click starts an empty one.
- `proj/code/model/editor/editor.h:257` says blank rows are allocated; a replaced block's rows have no buffers until
  their text arrives.
- `proj/code/model/editor/editor.c:624-627`, `:686-688` and `:727` move the peer's own row with remote edits but neither
  its column nor its selection's anchor, so both can end outside the document.
- `proj/code/view/editor/highlight_cache.h` promises a full rebuild on multi-line edits; the code drops the
  colours and leaves the comment states as they were.

`dafny verify dfyconfig.toml` checks the whole project.

## Model

| member | source | states |
|---|---|---|
| Video.Screen.MapVram | lab5/video.c:29-51 | returns 1 exactly when the mode query or the mapping fails; bytes per pixel is the bit depth rounded up to whole bytes; after success the mapped buffer has exactly `frame_size` bytes and, for up to 4 bytes per pixel, the screen is valid |
| Video.Screen.DrawPixel | lab5/video.c:53-63 | read back as a little-endian number, the pixel at (x, y) is the colour modulo 256 to the bytes per pixel, and every other pixel is as before; off-screen calls change nothing and still return 0 |
| Video.Screen.DrawHline | lab5/video.c:65-70 | the loop of pixels gives that value to exactly the pixels whose column lies in the line modulo 65536 |
| Video.Screen.DrawRectangle | lab5/video.c:72-77 | the nested loops give that value to exactly the pixels whose column and row lie in the rectangle modulo 65536 |
| Video.Screen.PrintXpm | lab5/video.c:79-92 | the sprite loops give column u, row v of the area the colour u + v * width, every index in range, and change no other pixel; a failed load returns 1 and draws nothing |
| Raster.OffsetIsInjective | lab5/video.c:58-60 | the offset of byte k of an on-screen pixel lies inside the frame and determines x, y and k, so pixels never overlap |
| Raster.OffsetIsOnto | lab5/video.c:35-38 | every offset of the frame is a byte of some on-screen pixel |
| Raster.IndexDoesNotWrap | lab5/video.c:58 | the 32-bit unsigned arithmetic of the pixel index never wraps for an on-screen pixel, and its bytes end inside the frame |
| Raster.PixelCell | lab5/video.c:58-60 | the bytes of one pixel are exactly a run of `bytes_per_pixel` offsets |
| Raster.BytesSpellTheColor | lab5/video.c:60 | the bytes stored for a colour, read as a little-endian number, are the colour modulo 256 to their count |
| Raster.RectPaints | lab5/video.c:53-77 | one rectangle: the pixels in its area modulo 65536 read back as its colour, all others as before |
| Raster.SpriteBlits | lab5/video.c:79-92 | one sprite: column u, row v of its area reads back as colour u + v * width, all other pixels as before |
| Raster.LastCoveringDrawWins | lab5/video.c:53-92 | painter's theorem: after any sequence of pixels, lines, rectangles and sprites, an on-screen pixel read back as a little-endian number is the colour of the last call covering it modulo 256 to the bytes per pixel, coverage being (px-x) mod 65536 < width and (py-y) mod 65536 < height |
| Raster.UncoveredPixelIsUntouched | lab5/video.c:53-92 | a pixel no call of the sequence covers keeps its initial bytes |
| Raster.ChannelsDetermineColor | lab5/video.c:60 | a 4-byte pixel reads back as exactly its colour, so its bytes determine it |
| Raster.RedrawIsIdempotent | lab5/video.c:65-92 | drawing the same thing twice is drawing it once |
| Raster.DisjointDrawsCommute | lab5/video.c:65-92 | two draws sharing no on-screen pixel can be made in either order |
| Raster.SplitWidth | lab5/video.c:65-77 | drawing a+b columns at x is drawing a at x and then b at (x+a) mod 65536 |
| Raster.SplitHeight | lab5/video.c:72-77 | the same for rows |
| Raster.EmptyDrawIsIdentity | lab5/video.c:65-92 | an area without columns or rows changes no byte |
| Raster.FullScreenRewritesEveryByte | lab5/video.c:72-77 | a full-screen rectangle gives every pixel its colour and leaves nothing of what the frame held |
| Video.IndexedColorChannels | lab5/video.c:87 | an indexed colour passed as a pixel colour lands in the first byte and clears the other bytes of the pixel |
| Mouse.MouseDriver.MouseIh | lab4/mouse.c:36-71 | a byte is stored at the old index, and the index and `packet_ready` move on, exactly when both reads work, status bit 0 is set and bits 6 and 7 are clear, and it is not a byte without bit 3 at index 0; otherwise nothing changes, `packet_ready` included; this is one step of the abstract decoder |
| Kbc.ByteIsDelivered | lab4/mouse.c:41-55 | the bytes all stream theorems speak of are exactly the data of reads that worked with status bit 0 set and bits 6 and 7 clear |
| MouseStream.Step | lab4/mouse.c:57-69 | between interrupts the index is below 3, a ready packet means index 0, and a partial or ready packet starts with bit 3 set |
| MouseStream.IncrementalIsBatch | lab4/mouse.c:36-71 | from any state and for every event sequence, the packets completed are those of the batch decoder that skips bytes lacking bit 3 and cuts the next three, applied to the partial packet and the bytes that got through |
| MouseStream.FreshIncrementalIsBatch | lab4/mouse.c:36-71 | the same from start-up, on the bytes alone |
| MouseStream.StoredBytesAreConserved | lab4/mouse.c:57-69 | no stored byte is lost, invented or reordered: the partial packet and the bytes stored are the packets completed and the partial packet left |
| MouseStream.ReadyIsLastCompleted | lab4/mouse.c:64-69 | a packet flagged ready is the last one completed |
| MouseStream.SeenIsPacketsPlusStale | lab4/lab4.c:56-65 | packets found ready after interrupts are the packets completed plus one for each interrupt rejected while one was already ready |
| MouseStream.InSyncStreamHasNoStale | lab4/lab4.c:49-72 | in an error-free, well-framed stream nothing is counted twice and n interrupts from index i complete (i+n)/3 packets |
| MouseStream.Resync | lab4/mouse.c:57-69 | one error-free frame whose header has bit 3 and whose payload bytes lack it leaves any decoder at index 0 |
| MouseStream.ResyncExactly | lab4/mouse.c:57-69 | a frame does that for every decoder state if and only if neither payload byte has bit 3 |
| MouseStream.DecodesExactlyAfterResync | lab4/mouse.c:57-69 | after such a frame every later error-free frame with bit 3 in its header is decoded exactly |
| MousePacket.ParseInvertsEncode | lab4/mouse.c:136-152 | parsing the three bytes a device sends for a report gives its buttons, overflow flags and 9-bit displacements as signed 16-bit numbers |
| MousePacket.EveryPacketIsAReport | lab4/mouse.c:136-152 | every packet with the sync bit is the encoding of the report the parser shows |
| MousePacket.StreamRoundTrip | lab4/lab4.c:49-65 | any sequence of reports, encoded and delivered without errors to a fresh driver, is printed as that sequence, one packet a report |
| Mouse.MouseDriver.ParsePacket | lab4/mouse.c:136-152 | each button and overflow flag is its bit of the first byte, and each displacement is its byte with the upper byte all ones or all zeros as the sign bit says |
| Mouse.MouseTestPacket | lab4/lab4.c:36-78 | over every notification sequence: what is printed and counted, that the loop runs exactly while fewer than `cnt` were counted, and the return codes of set-up and clean-up |
| Mouse.PacketCount | lab4/lab4.c:49-72 | at every loop head the count is packets completed plus interrupts rejected while a packet was ready |
| Mouse.CountIsExactIffNoStale | lab4/lab4.c:49-72 | so it counts packets if and only if there was no such interrupt |
| Mouse.FailedReadCountsPacketTwice | lab4/mouse.c:42-43 | a concrete run: one packet and one failed status read are counted, and printed, as two packets |
| Mouse.MouseTestAsync | lab4/lab4.c:80-147 | over every notification sequence: decoder, printout and idle counter at each point, and that the loop returns exactly at the tick that reaches the limit, with the code clean-up gives |
| Mouse.IdleIsTicksSinceReset | lab4/lab4.c:111-125 | the idle counter is the ticks since the last notification that made the loop print a packet, a tick in that notification included; partial packets do not reset it |
| Mouse.GivesUpExactlyAtLimit | lab4/lab4.c:122-132 | while running the counter stays within max(1, 60 idle_time), and the loop gives up exactly when a tick brings it there |
| MouseCommand.Controller.WaitInputEmpty | lab4/mouse.c:74-84 | succeeds exactly when one of ten polls shows bit 0 clear, stops at the first, and writes nothing |
| MouseCommand.Controller.WaitOutputFull | lab4/mouse.c:87-100 | succeeds exactly when one of ten polls shows bit 0 set; the data is what the port then gives, or the caller's old value if that read fails |
| MouseCommand.Controller.WriteCommand | lab4/mouse.c:102-125 | for every device: 0 is returned if and only if some round k < 5 reads ACK after rounds answered with neither ACK nor ERROR. In the record of all port accesses every write directly follows a poll that shows bit 0 clear and every data read one that shows it set; success ends with 0xD4 and then cmd written and 0xFA in hand; failure with a refused write, ten fruitless polls, 0xFC, or five rounds without 0xFA; at most 150 polls |
| MouseCommand.Controller.WriteWhenEmpty | lab4/mouse.c:108-114 | a wait and the write behind it: the write is made only right after a poll that shows bit 0 clear, and is the only other access |
| MouseCommand.UnreadResponseMayCount | lab4/mouse.c:103-119 | a concrete device: the response is not initialised, and when its read fails a leftover 0xFA counts as acknowledged |
| MouseCommand.FirstPollIsFirst | lab4/mouse.c:78-82 | a wait ends at the first poll that shows bit 0 as wanted, failed reads repeating the last status, and fails only if none does |
| MouseCommand.InputFullBitIsIgnored | lab4/mouse.c:80 | with `IBF` defined as bit 0, a controller whose input buffer is full (bit 1) is taken for ready at once |
| Keyboard.KeyboardDriver.KbcIh | lab3/kbc.c:36-59 | the stored scancode becomes exactly the data read when both reads work, status bit 0 is set and bits 6 and 7 are clear, and is kept otherwise |
| Keyboard.Lab3.Assemble | lab3/lab3.c:67-86 | one byte through the assembler: prefix kept or code completed, and the exit test reads a byte assigned by this or the previous byte, never a stale one |
| Keyboard.Lab3.KbdTestScan | lab3/lab3.c:38-101 | over every notification sequence the scan prints the codes of the bytes processed and returns exactly at the first ESC break without a prefix |
| Keyboard.Lab3.KbdTestTimedScan | lab3/lab3.c:184-272 | the same with the idle counter: it returns exactly at an ESC break or at the tick that reaches the limit, a prefix byte skipping the timer branch of its own notification |
| Keyboard.WaitingEscKey | lab5/lab5.c:39-94 | the wait of lab 5 returns at exactly the same notification as the scan automaton |
| Keyboard.ThreeLoopsAgree | lab3/lab3.c:65-90 | fed the same bytes without timer ticks, the three loops stop at the same notification with the same outcome |
| Scancodes.CodesSpellTheStream | lab3/lab3.c:63-90 | the codes printed, put together with a pending prefix, are the bytes processed with each run of E0 collapsed to one |
| Scancodes.CodesAreWellFormed | lab3/lab3.c:73-84 | each code is one byte or E0 and one byte, its last byte is not E0, and `make` is bit 7 of that byte clear |
| Scancodes.StopsAtFirstBareEscBreak | lab3/lab3.c:86-89 | the scan ends exactly at the first 0x81 not immediately preceded by E0 |
| Scancodes.StopsAtBareEscBreak | lab3/lab3.c:67-89 | a byte ends the scan exactly when it is 0x81 and the byte before it, if any, is not 0xE0 |
| Scancodes.KeysSnoc | lab3/lab3.c:63-67 | each hardware notification that carries the keyboard line gives the loop one byte: the one delivered, or the last one again |
| Scancodes.LatchedIsLastKey | lab3/kbc.c:36-59 | the stored scancode is the last byte the loop processed; a failed read repeats it |
| Scancodes.ScanIdleIsTicksSinceKey | lab3/lab3.c:216-260 | the idle counter is the ticks since the last keyboard notification, counting one in that notification unless its byte was 0xE0 |
| Scancodes.ScanIdleBeforeKeys | lab3/lab3.c:249-252 | before any keyboard notification it is the number of ticks |
| Scancodes.TimesOutExactlyAtLimit | lab3/lab3.c:252-258 | while scanning the counter stays within max(1, 60 n), and a timeout is exactly a tick that brings it there |
| Scancodes.IdleScanTerminates | lab3/lab3.c:249-258 | max(1, 60 n) timer-only notifications in a row always end the scan |
| Scancodes.NoTicksNoTimeout | lab3/lab3.c:206-266 | without timer interrupts the timed scan can only end the way the plain scan ends |
| Timer.TimerGetConf | lab2/timer.c:70-85 | on an 8254 the read-back gives the counter's mode and BCD bit and disturbs no counter; it succeeds exactly when both port accesses do, and writes one read-back byte to port 0x43 |
| Timer.TimerSetFrequency | lab2/timer.c:11-46 | succeeds exactly when 1 <= freq <= 1193182 and all five port accesses do; it has then written the read-back, the control word with the counter's own mode and BCD bit, and the low and high byte of floor(1193182/freq) mod 65536, which is the new reload value; other counters are never touched; failure keeps the reload value; freq 0 or above the clock touches nothing |
| Timer.TruncatedExactlyBelow19 | lab2/timer.c:19 | the 16-bit count is the true quotient c if and only if freq >= 19, and then c*freq <= 1193182 < (c+1)*freq |
| Timer.DividesByTrueQuotientIff | lab2/timer.c:19-43 | the chip then divides by the true quotient if and only if freq >= 19 and, on a BCD counter, the quotient is below 16 |
| Timer.BcdReadsSmallCountsOnly | lab2/timer.c:20 | a binary count read as decimal digits means the same number only below 16 |
| Timer.MasksAreArithmetic | lab2/timer.c:20-32 | the masks and ors of the control byte as arithmetic on its value, for every byte |
| TextDoc.RowsOfText | proj/code/model/editor/editor.c:178-225 | rows are recovered from the text they spell |
| TextDoc.TextOfRows | proj/code/model/editor/editor.c:490-562 | a text is spelled by its rows, and those form a document |
| TextDoc.TextIsInjective | proj/code/model/editor/editor.c:178-225 | two documents spelling the same text are equal |
| TextDoc.SpliceText | proj/code/model/editor/editor.c:387-428 | what every edit means: the text loses exactly what lay between two positions and gains the inserted text, and the end of the insertion is at the matching offset |
| TextDoc.BetweenText | proj/code/model/editor/editor.c:457-488 | the rows between two positions spell the text between their offsets |
| TextDoc.SpliceIsUndone | proj/code/model/editor/editor.c:387-428 | every edit is undone by splicing back what it removed |
| EditorState.EditsKeepDocument | proj/code/model/editor/editor.c:178-281 | typing, backspace, word deletion and paste keep the document a document and the cursor inside it |
| EditorState.InsertCharText | proj/code/model/editor/editor.c:178-225 | typing inserts exactly that byte, newline included, at the cursor's offset and leaves the cursor after it |
| EditorState.DeleteCharText | proj/code/model/editor/editor.c:227-264 | backspace removes exactly the byte before the cursor and does nothing at the start of the text |
| EditorState.BackspaceUndoesTyping | proj/code/model/editor/editor.c:178-264 | backspace after typing restores document and cursor |
| EditorState.DeleteSelectionText | proj/code/model/editor/editor.c:387-428 | deleting a selection removes exactly the text between its two ends, whichever end the cursor is on |
| EditorState.CopySelectionText | proj/code/model/editor/editor.c:457-488 | copying takes exactly the selected text |
| EditorState.CutThenPasteRestoresIff | proj/code/model/editor/editor.c:387-562 | copy, cut and paste back restores the document if and only if no terminator byte was selected, and then the cursor is at the end of the selection |
| EditorState.SelectionAndClipboard | proj/code/model/editor/editor.c:387-488 | deleting ends the selection and keeps the clipboard; copying keeps document, cursor and selection |
| EditorState.MoveLeftText | proj/code/model/editor/editor.c:283-292 | left is one byte back in the text, newlines included, and nothing at its start |
| EditorState.MoveRightText | proj/code/model/editor/editor.c:294-299 | right is one byte forward in the text, newlines included, and nothing at its end |
| EditorState.LeftAndRightUndo | proj/code/model/editor/editor.c:283-299 | each of left and right undoes the other wherever it moved |
| EditorState.UpAndDownUndoIff | proj/code/model/editor/editor.c:301-321 | up and down move exactly when there is a row that is not the remote cursor's, and come back to the same place if and only if the row visited is long enough |
| EditorState.CursorsStayApartIff | proj/code/model/editor/editor.c:159-170 | two cursors on different rows stay so under up, down and the peer's moves; left and right wrap onto the other's row in exactly the cases given, and so does a click outside the document |
| EditorState.WordLeftSkips | proj/code/model/editor/editor.c:323-331 | a word move to the left passes spaces and then one whole word, and no more |
| EditorState.WordRightSkips | proj/code/model/editor/editor.c:333-342 | a word move to the right passes the rest of the word and then all spaces after it, and no more |
| TextStore.Buffer.LineEnsureCap | proj/code/model/editor/editor.c:34-59 | growing a line keeps its text and terminator, and a line without a buffer becomes an empty terminated one; succeeds exactly when its allocation, if any, is granted; failure changes nothing |
| TextStore.Buffer.LinesEnsureCap | proj/code/model/editor/editor.c:61-79 | growing the line array keeps the rows in use; succeeds exactly when its allocation, if any, is granted; failure changes nothing |
| TextStore.Buffer.Init | proj/code/model/editor/editor.c:94-115 | one empty row, exactly when the allocations are granted |
| TextStore.Buffer.InsertAt | proj/code/model/editor/editor.c:178-225 | the array and buffer moves are a splice of the document, exactly when every allocation is granted; a failed one leaves the document alone, or for a newline may already have lost the last row |
| TextStore.Buffer.BreakRow | proj/code/model/editor/editor.c:181-208 | breaking a row splits it at the cursor, exactly when every allocation is granted; what is shown when the new row's buffer cannot be allocated |
| TextStore.Buffer.DeleteBackAt | proj/code/model/editor/editor.c:227-264 | backspace on the array, within a row or joining two, is the abstract deletion; within a row it never fails, and a join fails exactly when its allocation does, changing nothing |
| TextStore.Buffer.DeleteRange | proj/code/model/editor/editor.c:387-428 | removing a range over one or many rows is a splice; in one row it never fails, over more exactly when an allocation does, changing nothing |
| TextStore.Buffer.CopyRange | proj/code/model/editor/editor.c:457-488 | makes one allocation, and if it is granted the copied string is exactly the text of the range |
| TextStore.Buffer.MeasureRange | proj/code/model/editor/editor.c:465-473 | the first pass counts exactly the bytes of the range and one terminator |
| TextStore.Buffer.FillRange | proj/code/model/editor/editor.c:474-488 | the second pass writes exactly the text of the range and stays inside the measured buffer |
| TextStore.Buffer.PasteAt | proj/code/model/editor/editor.c:490-562 | pasting segment by segment is one splice of the clipboard's rows, ending at the returned position, exactly when every allocation is granted |
| TextStore.Buffer.LoadLine | proj/code/model/editor/editor.c:564-576 | stores the text in the last row and opens an empty row below, exactly when every allocation is granted; the last byte copied decides whether the row is terminated |
| TextStore.Buffer.LoadFinalize | proj/code/model/editor/editor.c:578-582 | drops the empty row that loading leaves |
| TextStore.Buffer.ReplaceBlock | proj/code/model/editor/editor.c:695-731 | the rows of a block are replaced by blank ones without buffers, the count of removed rows clipped to the document; a block that does not grow never fails; failure changes nothing |
| TextStore.Buffer.UpdateLine | proj/code/model/editor/editor.c:733-743 | one row becomes the received text with a terminated buffer, exactly when its allocation is granted; failure changes nothing |
| Editor.TextEditor.InsertChar | proj/code/model/editor/editor.c:178-225 | the whole editor state becomes the abstract insertion, exactly when every allocation is granted; a failed plain character changes nothing |
| Editor.TextEditor.DeleteChar | proj/code/model/editor/editor.c:227-264 | the whole editor state becomes the abstract backspace; away from column 0 it never fails, else exactly when an allocation does, changing nothing |
| Editor.TextEditor.DeleteWord | proj/code/model/editor/editor.c:266-281 | spaces and then a word to the left are removed, within the row |
| Editor.TextEditor.SelGetRange | proj/code/model/editor/editor.c:371-385 | the two ends of the selection in order |
| Editor.TextEditor.DeleteSelection | proj/code/model/editor/editor.c:387-428 | the whole editor state becomes the abstract deletion; without a selection over two rows it never fails, else exactly when an allocation does, changing nothing |
| Editor.TextEditor.CopySelection | proj/code/model/editor/editor.c:457-488 | makes one allocation when there is a selection: granted, the clipboard becomes the selected text; refused, it is left absent and nothing else changes |
| Editor.TextEditor.Paste | proj/code/model/editor/editor.c:490-562 | without a clipboard nothing changes; otherwise the state becomes the abstract paste, exactly when every allocation is granted |
| Editor.TextEditor.RemoteInsertChar | proj/code/model/editor/editor.c:593-648 | an insertion at the remote cursor, a local cursor below it moving down with a newline, exactly when every allocation is granted |
| Editor.TextEditor.RemoteDeleteChar | proj/code/model/editor/editor.c:650-693 | a backspace at the remote cursor; a local cursor below a joined row moves up; fails exactly when an allocation does, changing nothing |
| Editor.TextEditor.RemoteReplaceBlock | proj/code/model/editor/editor.c:695-731 | rows, their buffers and the local cursor after a block replacement; an out-of-range start is ignored and succeeds; otherwise fails exactly when an allocation does |
| Editor.TextEditor.RemoteUpdateLine | proj/code/model/editor/editor.c:733-743 | one row and its buffer replaced; an out-of-range row is ignored and succeeds; otherwise fails exactly when its allocation does |
| SerialLink.Receiver.HandleByte | proj/code/controller/serial.c:32-89 | the buffer, index, length and command fields implement the abstract receiver, byte by byte, and a packet is handed on exactly when complete |
| SerialLink.PacketArrives | proj/code/controller/serial.c:32-198 | one packet's bytes give back that packet and leave the receiver waiting, whatever the payload bytes are |
| SerialLink.WireRoundTrip | proj/code/controller/serial.c:32-116 | any sequence of packets put on the wire is received as exactly that sequence |
| SerialLink.NoiseIsSkipped | proj/code/controller/serial.c:35-40 | bytes other than the start byte before the first packet change nothing |
| SerialLink.MessagesArrive | proj/code/controller/serial.c:123-198 | every message the sender can build becomes a packet whose length fits its length byte, and all of them arrive in order |
| SerialLink.WordRoundTrip | proj/code/controller/commands/commands.c:185-191 | a row, column or count sent as two bytes is read back modulo 65536 |
| SerialLink.PacketLayout | proj/code/controller/serial.c:124-198 | the bytes of each message on the wire, one by one: 0xFE, command, length, numbers high byte first, texts cut to 250 or 252 |
| SerialLink.Sender.SendPacket | proj/code/controller/serial.c:109-116 | the start byte goes in front of the buffer and all of it out in order |
| SerialLink.Sender.BuildPacketSerial | proj/code/controller/serial.c:123-198 | for each command the buffer built and sent, byte by byte; other commands send nothing |
| SerialLink.Sender.Transmit | proj/code/controller/commands/commands.c:177-209 | what the commands build for a message is that message's encoded packet |
| Session.Dispatcher.SyncBlock | proj/code/controller/commands/commands.c:177-209 | exactly the messages of a block edit are sent: one line, or a replacement and each of its lines, then the cursor; nothing while synchronisation is off |
| Session.Dispatcher.Dispatch | proj/code/controller/commands/commands.c:230-464 | for every key: exactly when all allocations it makes are granted it succeeds, the editor is what the key means, exactly the messages it announces were sent, and it stays valid |
| Session.Dispatcher.OnBackspace | proj/code/controller/commands/commands.c:230-293 | the selection, word, row-joining and plain cases of backspace, each with its own message; succeeds exactly when every allocation is granted |
| Session.Dispatcher.OnArrow | proj/code/controller/commands/commands.c:295-324 | shift extends the selection from an anchor, any other move clears it; the new position is sent |
| Session.Dispatcher.OnCut | proj/code/controller/commands/commands.c:330-348 | copy, delete and announce the deleted block; succeeds exactly when every allocation is granted |
| Session.Dispatcher.OnPaste | proj/code/controller/commands/commands.c:349-383 | the number of rows announced is the number the paste made; with an empty clipboard nothing is announced; fails exactly when an allocation does |
| Session.Dispatcher.OnEnter | proj/code/controller/commands/commands.c:406-434 | a newline, or a block of two rows when a selection was replaced; succeeds exactly when every allocation is granted |
| Session.Dispatcher.OnChar | proj/code/controller/commands/commands.c:400-464 | a character, or a block of one row when a selection was replaced; a colon is left to the command bar; succeeds exactly when every allocation is granted |
| Session.Dispatcher.OnClick | proj/code/controller/commands/commands.c:485-499 | the cursor is set and the requested position sent, even when the move was refused; the selection starts anew |
| Session.Dispatcher.ExecuteSync | proj/code/controller/commands/commands.c:66-100 | the name and row count, every row and the cursor are sent, and synchronisation is on |
| Session.Dispatcher.DispatchSerial | proj/code/controller/commands/commands.c:516-619 | for every packet the receiver can act on, exactly when its allocations are granted: editor, file counters and which rows have terminated buffers become the abstract reception; a file start switches synchronisation on |
| Session.Dispatcher.FileLine | proj/code/controller/commands/commands.c:600-615 | a file line is loaded, exactly when its allocations are granted, and the one that completes the count ends the loading |
| Session.Dispatcher.DispatchAll | proj/code/controller/commands/commands.c:516-619 | any run of packets that can be acted on in turn becomes the abstract reception of the run, buffers included, exactly when all allocations are granted |
| Session.Dispatcher.DeliverKey | proj/code/controller/commands/commands.c:516-619 | all packets of one key of a sender the editor mirrors: each is acted on, all rows end with terminated buffers, the editor is the replica of the session theorems, and it can take its own next key if and only if the sender's key left its cursor and selection room |
| Session.Dispatcher.DeliverSession | proj/code/controller/commands/commands.c:516-619 | the same for a whole run of keys: the editor ends with the sender's document in terminated rows and shows its cursor; and it is valid at the end if every key left it room |
| KeyMeaning.CharMeans | proj/code/controller/commands/commands.c:400-464 | a character replaces the selected part of the text, or goes in at the cursor, and the cursor ends behind it; a colon does nothing |
| KeyMeaning.EnterMeans | proj/code/controller/commands/commands.c:406-434 | Enter does the same with a newline |
| KeyMeaning.PasteMeans | proj/code/controller/commands/commands.c:349-383 | paste does the same with the clipboard up to its first zero byte; without a clipboard the selection still goes |
| KeyMeaning.CopyMeans | proj/code/controller/commands/commands.c:326-329 | copy puts the selected part of the text in the clipboard and changes nothing else |
| KeyMeaning.CutMeans | proj/code/controller/commands/commands.c:330-348 | cut puts the selected part of the text in the clipboard and takes it out of the document; without a selection it does nothing |
| KeyMeaning.CutThenPasteKeysRestoreIff | proj/code/controller/commands/commands.c:330-383 | on keys alone: cut and then paste restore the document if and only if no zero byte was selected, and then the cursor is at the end of the selection |
| KeyMeaning.BackspaceMeans | proj/code/controller/commands/commands.c:230-293 | backspace removes the selected part; or, with Ctrl away from the start of a row, the spaces and the whole word before the cursor; or the byte before the cursor; or nothing at the start of the text; the clipboard stays |
| KeyMeaning.ArrowMeans | proj/code/controller/commands/commands.c:295-324 | an arrow leaves text and clipboard alone; with shift the anchor stays or is dropped at the old cursor, without it the selection ends; each direction, plain and by word, is spelled out |
| KeyMeaning.ClickMeans | proj/code/controller/commands/commands.c:485-499 | a click goes to the nearest row and column of the document, unless it is on the remote cursor's row, and starts an empty selection there |
| PacketMeaning.InsertCharMeans | proj/code/controller/commands/commands.c:521-528 | 0x01: the byte goes into the text at the remote cursor; a newline moves an own cursor on a lower row down; nothing else of the peer changes |
| PacketMeaning.DeleteCharMeans | proj/code/controller/commands/commands.c:530-539 | 0x02: the byte before the remote cursor leaves the text; when that joins two rows an own cursor below moves up |
| PacketMeaning.MoveCursorMeans | proj/code/controller/commands/commands.c:540-562 | 0x03: the remote cursor goes to the two numbers sent, high byte first, unless the row is the peer's own |
| PacketMeaning.ReplaceBlockMeans | proj/code/model/editor/editor.c:695-731 | 0x05: exactly which rows stay, which become empty and how an own cursor below moves, the block clipped to the document; a start past the end is ignored |
| PacketMeaning.UpdateLineMeans | proj/code/model/editor/editor.c:733-743 | 0x06: the row named becomes the rest of the payload; a row past the end is ignored |
| PacketMeaning.FileStartMeans | proj/code/controller/commands/commands.c:582-599 | 0x10: the editor starts over, all but the remote cursor, and expects the number of lines sent |
| PacketMeaning.FileLineMeans | proj/code/controller/commands/commands.c:600-615 | 0x11: a line fills the last row and opens an empty one, except the line that completes the file; without a file under way it is ignored |
| PacketMeaning.OthersAreIgnored | proj/code/controller/commands/commands.c:516-619 | other commands, and all but 0x02 and 0x11 without a payload, change nothing |
| CoEditing.LocalIsWf | proj/code/controller/commands/commands.c:215-503 | every key and click keeps the document a document and the cursor and the selection's anchor inside it |
| CoEditing.LocalAllIsWf | proj/code/controller/commands/commands.c:215-503 | the same over any run of keys and clicks |
| CoEditing.KeyIsBlockEdit | proj/code/controller/commands/commands.c:230-464 | the block of rows a key announces is exactly the block it changed: all rows before and after it are the old ones |
| DeltaSync.BlockArrives | proj/code/controller/commands/commands.c:177-209 | delivered to a peer with the old rows, a block edit gives the new rows, each row of the block cut to 250 bytes, shifts the peer's own row and moves the remote cursor |
| DeltaSync.TrimmedIsExactIffFits | proj/code/controller/serial.c:161 | cutting changes nothing if and only if every row of the block has at most 250 bytes |
| CoEditing.KeyFollows | proj/code/controller/commands/commands.c:215-503 | for every key: the peer's rows become the sender's if and only if the changed rows fit their packets (and a paste over a selection has something to paste), and it shows the sender's cursor if and only if that is not kept off the peer's own row |
| CoEditing.SessionFollows | proj/code/controller/commands/commands.c:215-619 | over any run of keys meeting those conditions the peer ends with the sender's document and shows its cursor |
| CoEditing.SessionFollowsOverTheWire | proj/code/controller/serial.c:32-198 | the same through the byte stream: all packets encoded, sent, received and applied |
| CoEditing.OwnCursorKeepsItsRow | proj/code/model/editor/editor.c:624-627 | whatever the sender does to other rows, the peer's own cursor stays on the row it was on |
| CoEditing.PeerCursorStaysKnown | proj/code/model/editor/editor.c:624-627 | the sender still knows where the peer's own cursor is if and only if the key did not change the number of rows above it |
| CoEditing.StaleCursorSplitsDocuments | proj/code/model/editor/editor.c:593-648 | once the shown cursor is on the wrong row, the next character the peer types makes the documents differ |
| CoEditing.EnterAboveLosesThePeersCursor | proj/code/model/editor/editor.c:178-208 | every Enter above the peer's cursor has that effect |
| CoEditing.PasteOfNothingSplitsDocuments | proj/code/controller/commands/commands.c:349-375 | a concrete run: pasting with an empty clipboard over a selection deletes it locally and announces nothing |
| CoEditing.PasteIntoLongRowSplitsDocuments | proj/code/controller/serial.c:161 | a paste on a row already 250 bytes long reaches the peer cut short |
| CoEditing.NothingBeforeTheStart | proj/code/controller/commands/commands.c:249-262 | Ctrl+Backspace at the start of the text announces a block at row -1, which the peer ignores |
| PeerBuffers.KeyEndsWithBuffers | proj/code/model/editor/editor.c:695-743 | rows a block opens have no buffers until their text arrives; still the packets of any key can be acted on one after the other, and at the end every row has its buffer again |
| PeerBuffers.SessionEndsWithBuffers | proj/code/controller/commands/commands.c:563-581 | the same over any followable run of keys |
| PeerEditor.LocalIsEdit | proj/code/controller/commands/commands.c:230-464 | what a key announces is one replacement of the text between two positions, read off the state before the key |
| PeerEditor.PeerStaysWfIff | proj/code/model/editor/editor.c:593-743 | after the packets of a key the peer's own cursor and selection are inside its document if and only if its cursor is outside the rows changed or has room in the row that takes its place, and its anchor, which nothing moves, is above them or has room: read off the states before the key |
| PeerEditor.SessionKeepsPeerIff | proj/code/model/editor/editor.c:593-743 | over any followable run the peer is inside its document after every key if and only if every key leaves it room |
| PeerEditor.BackspaceStrandsThePeer | proj/code/model/editor/editor.c:686-688 | a concrete run: a backspace just before the peer's cursor leaves that cursor past the end of its row |
| PeerEditor.TwoBackspacesStrandThePeer | proj/code/model/editor/editor.c:650-693 | a concrete run with the two cursors on different rows: the first backspace joins them, the second strands the peer |
| PeerEditor.DeletedSelectionStrandsThePeer | proj/code/model/editor/editor.c:727 | a concrete key: a selection deleted over the peer's row leaves the peer on a row that is gone |
| FileShare.ShareArrives | proj/code/controller/commands/commands.c:66-89 | what sharing a file leaves on any peer, whatever it had: as many rows as the 16-bit count says, each cut to 252 bytes |
| FileShare.ShareMirrors | proj/code/controller/commands/commands.c:66-89 | the peer ends with the file if and only if it has fewer than 65536 rows, none over 252 bytes; it also shows the cursor if and only if that is below the first row or was shown already |
| FileShare.ShareThenTypeOverTheWire | proj/code/controller/commands/commands.c:66-465 | sharing a file, its cursor off the first row or already shown, and then any followable run of keys, through the byte stream, ends with equal documents |
| FileShare.ShareStores | proj/code/controller/commands/commands.c:600-615 | every packet of a shared file can be acted on in turn, and which rows end with terminated buffers |
| FileShare.ShareTerminatesIff | proj/code/model/editor/editor.c:564-582 | all rows of a shared file are terminated if and only if the byte after each line's payload in the receive buffer is zero |
| FileText.ExecuteSave | proj/code/controller/commands/commands.c:27-37 | the file written is each row as a C string and a newline |
| FileText.ExecuteOpen | proj/code/controller/commands/commands.c:39-58 | exactly when every allocation is granted: the editor holds the rows the reads of the file make, cursor at the start, no selection and no clipboard |
| FileText.LoadedAreRowsOfLines | proj/code/controller/commands/commands.c:39-58 | for any bytes: the rows opened are those of the lines, each cut into reads of at most 4095 bytes and each read ended at its first zero byte; the last line needs no newline |
| FileText.SavedIsTextOfCStrings | proj/code/controller/commands/commands.c:27-37 | for any rows: the file saved is the text of the rows, each up to its first zero byte, and one newline more |
| FileText.OpenedSavedIffReadsBack | proj/code/controller/commands/commands.c:27-58 | a document saved and opened comes back if and only if every row has at most 4094 bytes and no terminator byte |
| FileText.SavedOpenedIffRegular | proj/code/controller/commands/commands.c:27-58 | a file opened and saved is unchanged if and only if it ends with a newline and every line has at most 4094 bytes and no terminator byte |
| HighlightCache.HighlightLine | proj/code/view/editor/syntax.c:73-247 | scanning token by token leaves a line in a block comment exactly when an automaton that reads one byte at a time does |
| HighlightCache.ExitIsAutomaton | proj/code/view/editor/syntax.c:94-161 | the scan with its two-byte steps and skipped literals agrees with the byte-at-a-time automaton on every line |
| HighlightCache.LiteralCloses | proj/code/view/editor/syntax.c:124-160 | a literal whose body has no backslash and no quote of its kind leaves the state of what follows it |
| HighlightCache.EscapeIsSkipped | proj/code/view/editor/syntax.c:128-130 | inside a literal a backslash and the byte after it, whatever it is, are passed over |
| HighlightCache.OpenLiteralHidesTheRest | proj/code/view/editor/syntax.c:124-160 | a literal the line does not close leaves no comment open |
| HighlightCache.CommentCloses | proj/code/view/editor/syntax.c:95-105 | a block comment runs to the first star and slash and the rest is scanned as code; without them it stays open |
| HighlightCache.CodeGoesOn | proj/code/view/editor/syntax.c:107-121 | in code a slash and a star open a comment, two slashes hide the rest, and other bytes change nothing |
| HighlightCache.StateIsOfTheText | proj/code/view/editor/highlight_cache.c:52-69 | scanning row by row gives each row the state of reading the whole text above it byte by byte, newlines included |
| HighlightCache.Cache.RebuildFull | proj/code/view/editor/highlight_cache.c:52-69 | every row's recorded comment state is the one a scan from the top gives |
| HighlightCache.Cache.RebuildFrom | proj/code/view/editor/highlight_cache.c:239-265 | the rescan that stops at the first row whose state agrees leaves all states and all cached colours right |
| HighlightCache.Cache.RenderLine | proj/code/view/renderer/scene.c:353-356 | after any one row changed, freeing and rescanning it makes the cache as good as one built from scratch |
| HighlightCache.Cache.GetLine | proj/code/view/editor/highlight_cache.c:216-231 | on any cache: the cached colours, or those of the recorded state, then cached; on a cache that is right they are the colours of the row entered in its true comment state, and it stays right |
| HighlightCache.Cache.SetLanguage | proj/code/view/editor/highlight_cache.c:233-237 | after a change of language the cache is right for the whole document |
| HighlightCache.Cache.Sync | proj/code/view/editor/highlight_cache.c:157-214 | exactly how cached rows move when a row is broken or joined at the cursor, and that any other change of the row count drops them all |
| HighlightCache.OpenedTextsAreRight | proj/code/view/editor/highlight_cache.c:168-183 | after a row break every cached row belongs to the text now in that row |
| HighlightCache.ClosedTextsAreRight | proj/code/view/editor/highlight_cache.c:186-207 | ... and after a row join |
| HighlightCache.ReplacedStatesRightIff | proj/code/view/editor/highlight_cache.c:157-214 | for any edit of whole rows: the recorded comment states, which do not move, are right if and only if they hold the states of the new rows and, below, those of the old rows entered as the new ones leave off |
| HighlightCache.MovedStatesRightIff | proj/code/view/editor/highlight_cache.c:157-214 | when the new rows leave the state the old ones left: if and only if, besides, every row below was entered in the state recorded where it now stands |
| HighlightCache.BreakKeepsStatesIff | proj/code/view/editor/highlight_cache.c:167-184 | after a row break: if and only if the left half leaves the state recorded below it and all rows below, with the record's next entry, are in one state |
| HighlightCache.JoinKeepsStatesIff | proj/code/view/editor/highlight_cache.c:185-207 | after a row join: if and only if all rows below are entered in the state the lower of the two was entered in |
| HighlightCache.CutBetweenTokens | proj/code/view/editor/syntax.c:94-161 | a row cut between two tokens: the left part leaves the state at the cut and the right part goes on from it to the state the row left |
| HighlightCache.BreakBetweenTokensIff | proj/code/view/editor/highlight_cache.c:167-184 | a break between two tokens, decided on the old document alone |
| HighlightCache.JoinBetweenTokensIff | proj/code/view/editor/highlight_cache.c:185-207 | a join with no token across the seam, decided on the old document |
| HighlightCache.BreakAboveCommentSpoilsStates | proj/code/view/editor/highlight_cache.c:157-214 | a concrete break above a comment after which they are wrong |

## Left out

- Setting video modes, mapping memory, subscribing to interrupts, delays, printing and the exit paths of `main`: system calls; their outcomes are parameters where the code looks at them.
- Video.Screen.MapVram: says nothing about drawing in modes of more than 4 bytes per pixel, where the driver's `memcpy` reads past its 32-bit colour.
- `kbd_test_poll` and the command-byte plumbing of lab 3: the polling loop does not use the shared assembler.
- Lab 1 and the display of timer configurations: no state.
- Timer.TimerGetConf: timers above 2 are not modelled; the chip has three counters.
- Timer.TimerSetFrequency: the same.
- Mouse.MouseTestPacket: a run is a finite notification sequence; a loop that is still waiting reports that instead of blocking, so theorems are about every finite prefix of a run. The 32-bit packet counter does not wrap.
- Keyboard.Lab3.KbdTestTimedScan: the same, and the 32-bit idle counter does not wrap.
- MouseCommand.Controller.WriteCommand: the uninitialised `response` and `status` variables hold arbitrary but fixed bytes of the device parameter.
- Mouse.MouseDriver.OnInterrupt: only the branch the two loops share; its content is in the rows of the loops.
- SerialLink.Sender.BuildPacketSerial: every byte handed to the UART driver counts as sent; its polling and time-outs are not modelled.
- TextStore.Buffer.PasteAt: nothing is said about the document after an allocation fails half-way; the same holds for `Editor.TextEditor.Paste`.
- TextStore.Buffer.LinesEnsureCap: capacities are unbounded integers; the overflow of `int` at two thousand million rows is not modelled. A line's buffer is a value inside the line, so aliasing and freeing are not modelled.
- TextStore.Buffer.ReplaceBlock: the buffers freed before a failing allocation are not modelled as dangling.
- Editor.TextEditor.RemoteInsertChar: after a failed newline nothing is said about the rows; the position must be inside the document, as its header assumes.
- Session.Dispatcher.DispatchSerial: packets whose payload is shorter than their command needs are not modelled (the code reads what the buffer last held), nor is the loss of packets when the event queue is full. A character edit that finds a row without its buffer, or a remote cursor outside the document, is outside the contract; no run of a sender's keys leads there (PeerBuffers.SessionEndsWithBuffers).
- Session.Dispatcher.Dispatch: when an allocation fails, only that nothing is sent unless a selection was being replaced. Escape, save, open, the command bar, the file tree, dragging and wheel scrolling are not events of the model; neither are render modes.
- CoEditing.KeyFollows: both documents have fewer than 65535 rows and rows shorter than 65536 bytes, so that row numbers and columns fit their 16 bits.
- Session.Dispatcher.DeliverSession: once a remote edit has stranded the receiver's own cursor (PeerEditor.PeerStaysWfIff), nothing is said of its own next key.
- CoEditing.SessionFollows: keys come from one side and packets are delivered before the next key; what two simultaneous writers do is covered one step at a time by the three lemmas on the peer's cursor.
- FileShare.ShareMirrors: the file name and the status line are not part of the replica.
- FileText.ExecuteOpen: failing to open the file, and language detection from its name, are not modelled; a failed allocation only reports.
- HighlightCache.HighlightLine: the colours themselves are represented by the text, comment state and language they are computed from; keyword tables and the preprocessor flag do not change the comment state.
- HighlightCache.Cache.RebuildFrom: allocations succeed. Colours of rows changed by the peer are not refreshed by the code and not covered.
- Drawing of text, gutter, scroll bar and cursors, fonts, the file tree, the event queue, the UART driver and the interrupt dispatcher of the editor: they would add plumbing.
