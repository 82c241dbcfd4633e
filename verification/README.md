# neovim.cs core, modelled in Dafny

This project models the sequential core of a C# client and front end for
Neovim's MessagePack-RPC user interface protocol:

- **NotificationParser**: the redraw notification parser. It turns a list
  of batches `[name, tuple1, tuple2, ...]` into typed redraw methods using a
  fixed 16-entry name table, and drops unknown names.
- **MsgPackIO**: the request/response bookkeeping of the transport class,
  in both of its copies.
  - A request is `[0, msgid, method, params]`, a response is
    `[1, msgid, error, result]` and a notification is `[2, method, params]`.
  - The state is `_msgId` plus the table of completion slots. The id is a
    C# `int` incremented without overflow checks, so it wraps around.
  - An awaited `Task` is a slot that is filled later. The caller resumes
    with `Resume`, which also removes the slot.
  - One read is the sequence of objects the unpacker decoded, each with its
    byte count.
- **NeovimClient**:
  - `ExtToInt64`, which decodes Neovim's handle extension objects as
    zero-extended little-endian two's complement;
  - the filter that turns `redraw` notifications into redraw events;
  - the table of typed request wrappers: method name, parameters sent and
    how element `[1]` of the reply is read.
- **Terminals**: the character grid of the two WPF front ends.
  - Row objects are held by reference. The grid is a list of row references
    into a store of row objects, so the aliasing that one front end's
    scroll creates is visible.
  - Writing a cell's text stamps the shared render properties onto it
    unless stamping is disabled.
- **Redraw**: the two `OnRedraw` handlers that drive the grid.
  - The `highlight_set` fold, the `put` concatenation and the argument
    order of `resize`, `cursor_goto` and `scroll` are modelled.
  - `Front` selects the variant. `Gui` scrolls by a signed byte and copies
    attributes. `Wpf` scrolls by an unsigned byte and moves row objects.
  - `Gui` runs on the window's thread. `Wpf` runs on the reader's thread,
    so its `set_title` throws when it sets the window title.

Every exception the C# code can raise becomes `Failure(fault)` of a
`Result`. `Values.Value` is the decoded MessagePack object, and the
narrowing calls (`AsList`, `AsInt32`, ...) fail when the value has the
wrong shape or range. `Nil` counts as the wrong shape for every narrowing
(see "Left out" for the null the library returns instead).

## Model

| member | source | states |
|---|---|---|
| Values.AsLists | NeovimClient/NotificationParser.cs:49-51 | Narrowing succeeds exactly when every element is an array. The result keeps length and order: element i is the list inside input element i. |
| NotificationParser.MethodOf | NeovimClient/NotificationParser.cs:53-103 | A name selects a method type only if it is that type's wire name, and it selects none when no type has that wire name. |
| NotificationParser.NameTableExact | NeovimClient/NotificationParser.cs:7-25 | Every one of the 16 method types is selected by its own wire name, and no two types share a wire name (the table is injective). |
| NotificationParser.ParseBatch | NeovimClient/NotificationParser.cs:44-103 | A batch parses exactly when it is a non-empty array with a string name and array tuples. It yields an entry exactly when the name is in the table. The entry's params are batch elements 1..n narrowed to lists, in order, with the name excluded. |
| NotificationParser.ParseRedraw | NeovimClient/NotificationParser.cs:41-106 | The parse succeeds exactly when every batch parses. The output is no longer than the input. |
| NotificationParser.ParseRedrawAppend | NeovimClient/NotificationParser.cs:41-106 | Parsing distributes over concatenation: `Parse(a + b)` is `Parse(a)` followed by `Parse(b)`, with the first failure winning. |
| NotificationParser.SingleBatch | NeovimClient/NotificationParser.cs:44-103 | A single batch gives exactly one entry when its name is in the table, and none otherwise. |
| NotificationParser.PerBatch | NeovimClient/NotificationParser.cs:44-103 | Position i holds an entry exactly when batch i is recognised. |
| NotificationParser.ImageSkip | NeovimClient/NotificationParser.cs:53-103 | An unrecognised batch in front shifts the index image by one position. |
| NotificationParser.ImageKeep | NeovimClient/NotificationParser.cs:53-103 | A recognised batch in front becomes entry 0, at position 0. |
| NotificationParser.ParseRedrawIsOrderedImage | NeovimClient/NotificationParser.cs:43-105 | The output is the order-preserving image of the recognised batches. There is an ascending index list naming exactly the recognised positions, and entry k is what batch `idx[k]` yields. |
| MsgPackIO.Increment | NeovimClient/MsgPackIO.cs:134 | `_msgId++` adds one, and wraps from 2^31-1 to -2^31. |
| MsgPackIO.RequestAsync | NeovimClient/MsgPackIO.cs:107-137 | The frame is `[type, _msgId, method, params]` with the params in order. The id is incremented on every successful call. A slot is registered under the id exactly when a return value is wanted. A duplicate id fails with DuplicateKey before anything is written. |
| MsgPackIO.Resume | NeovimClient/MsgPackIO.cs:139-141 | A caller resumes only once its slot holds a reply. It gets that reply, its slot is removed, and every other slot is unchanged. |
| MsgPackIO.Resolve | NeovimClient/MsgPackIO.cs:188 | `SetResult` succeeds exactly on an awaited slot. It fills that slot only. A missing id fails with KeyNotFound. |
| MsgPackIO.HandleFrame | Neovim/MsgPackIO.cs:206-243 | A non-array throws. A 4-element frame stores `[element 2, element 3]` in the slot keyed by element 1 and touches no other slot; it succeeds exactly when that slot is awaited. A 3-element frame raises one notice (name = element 1, params = element 2) and leaves the state unchanged. Other lengths change nothing. |
| MsgPackIO.HandleFrames | NeovimClient/MsgPackIO.cs:166-211 | Frames are handled in order. The id and the set of slot keys are unchanged. A run raises at most one notice per frame. |
| MsgPackIO.HandleFramesAppend | NeovimClient/MsgPackIO.cs:166-211 | Handling `a + b` is handling `a` and then `b` from the state `a` left. The notices are concatenated. |
| MsgPackIO.SlotFilledOnlyByItsResponse | NeovimClient/MsgPackIO.cs:177-189 | If an awaited slot holds a reply after a run of frames, one of those frames is a response with that id carrying exactly that reply. |
| MsgPackIO.SlotKeepsReply | NeovimClient/MsgPackIO.cs:188 | Once a slot holds a reply, later frames never change it. |
| MsgPackIO.InvPreserved | NeovimClient/MsgPackIO.cs:129-140 | While the id has not wrapped, pending ids lie in `[0, _msgId)`. So a request never hits a duplicate id. Requests, frames and resumption all keep this invariant. |
| MsgPackIO.RoundTrip | Neovim/MsgPackIO.cs:109-121 | After a request and its response `[1, id, error, result]`, the caller resumes with exactly `(error, result)` and its slot is gone. |
| MsgPackIO.OutputCallback | Neovim/MsgPackIO.cs:198-205 | Objects are taken in buffer order. Each starts at the previous offset plus the previous byte count, and every handled object starts below `count`. With no subscriber that throws, success means the offset has reached `count`, and the outcome is that of handling the taken objects. |
| MsgPackIO.ValuesOf | NeovimClient/MsgPackIO.cs:168-174 | The decoded values of a read, in buffer order. |
| NeovimClient.ExtToInt64 | Neovim/NeovimClient.cs:349-356 | The result is always a signed 64-bit value. |
| NeovimClient.Widen | Neovim/NeovimClient.cs:351-352 | A body shorter than 8 bytes is zero-extended at the high end to 8 bytes. A longer body is kept as it is. |
| NeovimClient.Word | Neovim/NeovimClient.cs:351-355 | The 8 bytes `ToInt64` reads: a shorter body followed by zero bytes, or the first 8 bytes of a longer one. |
| NeovimClient.WidenedReading | Neovim/NeovimClient.cs:351-352 | Widening a body of at most 8 bytes does not change its little-endian reading. |
| NeovimClient.LittleEndianBound | Neovim/NeovimClient.cs:355 | An n-byte little-endian reading is below 256^n. |
| NeovimClient.LittleEndianZeroExtend | Neovim/NeovimClient.cs:351-352 | High zero bytes do not change the little-endian reading. |
| NeovimClient.ShortBody | Neovim/NeovimClient.cs:349-356 | A body of at most 8 bytes reads as its two's-complement value. One of at most 7 bytes reads as its plain value, so `[k]` gives k. |
| NeovimClient.LongBody | Neovim/NeovimClient.cs:355 | Bytes after the eighth are ignored. |
| NeovimClient.DecodeEncode | Neovim/NeovimClient.cs:355 | Decoding the k-byte little-endian encoding of n below 256^k gives back n. |
| NeovimClient.EncodeDecode | Neovim/NeovimClient.cs:355 | Encoding the reading of a byte string gives back the byte string. |
| NeovimClient.ExtRoundTrip | Neovim/NeovimClient.cs:349-356 | Every long survives encoding into an 8-byte body and decoding with `ExtToInt64`. Every 8-byte body survives the reverse. |
| NeovimClient.OnNotificationReceived | Neovim/NeovimClient.cs:41-50 | Only `redraw` notifications raise an event, and its function list equals the params list. A `redraw` whose params are not a list throws. |
| NeovimClient.InvokeSendsListedParams | Neovim/NeovimClient.cs:55-127 | Each wrapper sends `[0, id, name, params]` with its fixed name and its arguments in order, and awaits the reply. `buffer_insert` drops `lnum`; `ui_attach` sends `[width, height, rgb]`. |
| NeovimClient.AsInt64s | Neovim/NeovimClient.cs:114-115 | Narrows element-wise, keeping length and order. It fails exactly when some element is not a long. |
| NeovimClient.AsStrings | Neovim/NeovimClient.cs:73-74 | Narrows element-wise, keeping length and order. It fails exactly when some element is not a string. |
| NeovimClient.ExtBodies | Neovim/NeovimClient.cs:220-224 | Succeeds exactly when every element is an extension object, and element i is element i's body, keeping length and order. |
| NeovimClient.HandlesOf | Neovim/NeovimClient.cs:220-224 | Element i is `ExtToInt64` of element i's body, keeping length and order. It fails exactly when some element is not an extension object. |
| NeovimClient.CallProjectsResult | Neovim/NeovimClient.cs:55-58 | A wrapper call returns the projection of the reply's `result`, never looking at `error`. It leaves no slot behind and advances the id by one. |
| NeovimClient.HandleListsElementwise | Neovim/NeovimClient.cs:233-250 | The handle-list wrappers decode every element with `ExtToInt64`, in order. |
| Terminals.Stamp | NeovimGUI/Terminal.cs:243-257 | The text setter stores the text. When enabled, it copies the shared background, foreground and typeface; otherwise the cell keeps its own attributes. |
| Terminals.CellAt | Neovim/MainWindow.xaml.cs:220 | `Cells[row][col]` succeeds exactly inside the grid and returns that cell. |
| Terminals.SetCell | NeovimGUI/Terminal.cs:157 | A write through a row object shows in every slot holding that row object, and nowhere else. |
| Terminals.SetCellUnaliased | NeovimGUI/Terminal.cs:157 | On an unaliased grid a write changes exactly one cell. |
| Terminals.Width | NeovimGUI/Terminal.cs:44 | `Cells[0].Count` exists exactly when the grid has a row, and is row 0's width. |
| Terminals.MoveCaret | NeovimGUI/Terminal.cs:33-40 | Succeeds exactly inside the grid. The caret takes the position and the text of that cell, and nothing else changes. |
| Terminals.MoveCaretRight | NeovimGUI/Terminal.cs:42-48 | Moves to `(row, col+1)`, or to `(row+1, 0)` from the last column of row 0's width. |
| Terminals.MoveCaretLeft | Neovim/MainWindow.xaml.cs:233-239 | Moves to `(row, col-1)`, or to the previous row's last column from column 0. |
| Terminals.MoveCaretLeftUndoesRight | Neovim/MainWindow.xaml.cs:225-239 | Between in-bounds positions a left move undoes a right move. |
| Terminals.NewTerminal | Neovim/MainWindow.xaml.cs:253-279 | A new terminal is 24 unaliased rows of 80 cells, each written `"X"`, with the caret at (0, 0) showing `"X"`. |
| Terminals.WriteAtCaret | Neovim/MainWindow.xaml.cs:313 | Succeeds exactly when the caret is inside the grid. It stamps the text onto the caret's cell only. |
| Terminals.PutText | Neovim/MainWindow.xaml.cs:309-316 | Keeps the rows and the properties. |
| Terminals.PutTextAppend | NeovimGUI/Terminal.cs:153-160 | Writing `a + b` is writing `a` and then `b`. |
| Terminals.PutTextSucceeds | Neovim/MainWindow.xaml.cs:309-316 | On a rectangular grid `PutText` succeeds exactly when the caret is inside and `start + |s|` is below `h*w`. The final move reads one cell past the last character. |
| Terminals.PutTextMovesCaret | NeovimGUI/Terminal.cs:42-48 | After a successful `PutText` on a rectangular grid the caret is `|s|` places further on in row-major order, inside the grid, showing its cell's text. The shape and the properties are kept. |
| Terminals.PutTextWrites | NeovimGUI/Terminal.cs:153-160 | `s[k]` is stamped in the cell k places after the caret, in row-major order, and every other cell is kept. |
| Terminals.Clear | NeovimGUI/Terminal.cs:162-169 | Every cell is written `""` under the properties. The caret and the rows are kept. |
| Terminals.ClearBlanksAndIsIdempotent | Neovim/MainWindow.xaml.cs:318-325 | After `Clear` no cell has text, and clearing again changes nothing. |
| Terminals.ClearToEnd | NeovimGUI/Terminal.cs:171-177 | Succeeds exactly on a non-empty grid where either the caret column is at or past row 0's width, or the caret lies inside the grid and its row is at least as wide as row 0. In the first case nothing changes. Otherwise `""` is written to columns `caret.col` up to row 0's width of the caret's row object, and every other cell is kept. |
| Terminals.ClearToEndOnlyCaretRow | Neovim/MainWindow.xaml.cs:327-333 | On an unaliased rectangle only the caret row's cells from `caret.col` on change. |
| Terminals.Highlight | NeovimGUI/Terminal.cs:146-151 | Sets the shared foreground and a normal-stretch typeface of the given weight and style. Cells and caret are kept. A caret outside the grid throws. |
| Terminals.HighlightThenWrite | Neovim/MainWindow.xaml.cs:302-313 | A write after `Highlight` carries the new foreground and typeface and the old background. |
| Terminals.CopyRowExact | NeovimGUI/Terminal.cs:113-119 | With stamping disabled, copying a row copies it exactly. |
| Terminals.CopyUpShifts | NeovimGUI/Terminal.cs:111-120 | Copying up makes each slot from `from` to the next-to-last hold the old row below it. |
| Terminals.CopyDownShifts | NeovimGUI/Terminal.cs:128-137 | Copying down makes each slot from 1 to `from` hold the old row above it. |
| Terminals.ScrollByCopy | NeovimGUI/Terminal.cs:98-145 | Scrolling keeps the rows, every row's length and the caret, and re-enables stamping. A direction other than 1 and -1 changes no cell and only re-enables stamping, even on an empty grid. Scrolling by 1 or -1 on an empty grid throws. |
| Terminals.ScrollUpByCopy | NeovimGUI/Terminal.cs:102-123 | Rows 0..h-3 hold old rows 1..h-2, and the last two rows are both new background cells, so the old last row is lost. |
| Terminals.ScrollDownByCopy | NeovimGUI/Terminal.cs:126-143 | Rows 1..h-1 hold old rows 0..h-2, and row 0 is new background cells. |
| Terminals.ScrollByRef | Neovim/MainWindow.xaml.cs:281-301 | Only direction 1 does anything, because a byte is never -1. It keeps the number of rows and throws on an empty grid. |
| Terminals.ScrollUpByRef | Neovim/MainWindow.xaml.cs:283-295 | Rows 0..h-3 hold old rows 1..h-2. The last two slots hold one and the same row object, all new cells, so the grid is aliased. |
| Terminals.AliasedRowsShareWrites | Neovim/MainWindow.xaml.cs:283-295 | After that scroll, a write into row h-2 shows in row h-1 too. |
| Terminals.Pad | NeovimGUI/Terminal.cs:211-216 | k new cells, each written `" "` under the properties. |
| Terminals.AddRows | NeovimGUI/Terminal.cs:189-195 | The added rows are new row objects with no cells. The old rows are kept and the grid stays unaliased. |
| Terminals.ShrinkRows | NeovimGUI/Terminal.cs:197-204 | Keeps the number of row objects. |
| Terminals.ShrinkRowsCuts | NeovimGUI/Terminal.cs:197-204 | On distinct rows that are all at least `cols` wide, every row from `from` on is cut to its first `cols` cells. |
| Terminals.ShrinkRowsFails | NeovimGUI/Terminal.cs:202 | A row narrower than `cols` makes the cut throw. |
| Terminals.GrowRowsAppends | NeovimGUI/Terminal.cs:206-219 | On distinct rows, the padding is appended to every row from `from` on. |
| Terminals.ResizeColumns | NeovimGUI/Terminal.cs:197-219 | Keeps the rows, the caret and the properties. |
| Terminals.Resize | NeovimGUI/Terminal.cs:179-220 | A success has the requested number of rows and an unaliased grid stays unaliased. A negative row count or an empty grid throws. |
| Terminals.ResizeSameSize | Neovim/MainWindow.xaml.cs:337-338 | Resizing to the same dimensions changes nothing. |
| Terminals.ResizeShrinks | Neovim/MainWindow.xaml.cs:340-360 | Shrinking gives a `rows` by `cols` rectangle whose row i is the first `cols` cells of old row i. |
| Terminals.ResizeGrows | Neovim/MainWindow.xaml.cs:340-375 | Growing gives each old row, or an empty new row, followed by `cols - w` new `" "` cells. So new rows are exactly as wide as the padding. |
| Terminals.AddedRowsAreEmpty | NeovimGUI/Terminal.cs:189-219 | Adding rows at the same width succeeds, but each new row is a list created with a capacity and no cells, and the column phase adds none. So the new rows hold no cells and moving the caret onto one throws. |
| Terminals.ResizeFails | NeovimGUI/Terminal.cs:184-204 | Resize throws on a negative row count, on a negative column count, and on adding rows while cutting columns (the new empty rows cannot be cut). |
| Redraw.RgbComponents | NeovimGUI/MainWindow.xaml.cs:88-92 | `(c >> 16, c >> 8, c)` cast to bytes reads back r, g and b of `0xRRGGBB`, and the top byte is ignored. |
| Redraw.ApplyEntry | NeovimGUI/MainWindow.xaml.cs:84-99 | Succeeds exactly for a string key whose value fits (`foreground` as a uint, `bold` and `italic` as booleans). The named attribute takes the entry's value: `foreground` becomes `Rgb(c)`, and `bold` or `italic` becomes the boolean. Every attribute the key does not name is kept. |
| Redraw.EntriesKeepUnnamed | NeovimGUI/MainWindow.xaml.cs:82-99 | An attribute that no entry of a dictionary names leaves the dictionary with the value it had. |
| Redraw.TuplesKeepUnnamed | NeovimGUI/MainWindow.xaml.cs:78-100 | An attribute that no entry of any tuple names keeps its value through the whole fold. |
| Redraw.ApplyEntries | NeovimGUI/MainWindow.xaml.cs:82-99 | Succeeds exactly when every entry can be read. |
| Redraw.ApplyTuplesAppend | NeovimGUI/MainWindow.xaml.cs:78-100 | Folding tuples `a + b` is folding `a` and then `b`. |
| Redraw.HighlightLastWins | NeovimGUI/MainWindow.xaml.cs:74-102 | A final tuple naming all three attributes decides the style, whatever the earlier tuples said. |
| Redraw.EmptyDictionariesKeepStyle | NeovimGUI/MainWindow.xaml.cs:78-100 | Tuples with empty dictionaries leave the style as it was. |
| Redraw.PutPayload | NeovimGUI/MainWindow.xaml.cs:113-120 | Succeeds exactly when every tuple's element 0 is a binary. |
| Redraw.PutPayloadAppend | NeovimGUI/MainWindow.xaml.cs:116-117 | The payload of tuples `a + b` is the payload of `a` followed by that of `b`. |
| Redraw.Arg | NeovimGUI/MainWindow.xaml.cs:65 | `args[i][j]` exists exactly when both indices are in range. |
| Redraw.Dispatch | NeovimGUI/MainWindow.xaml.cs:59-152 | An ignored name changes nothing. Only `set_title` in the `Gui` handler changes the title. The grid stays valid, and in the copying front end an unaliased grid stays unaliased. |
| Redraw.ApplyBatch | Neovim/MainWindow.xaml.cs:64-73 | A batch is accepted only when it is a list of a name and array tuples. A well-formed batch with an ignored name changes nothing. |
| Redraw.OnRedraw | NeovimGUI/MainWindow.xaml.cs:47-155 | Batches are applied in list order. The copying front end never aliases rows. |
| Redraw.OnRedrawAppend | Neovim/MainWindow.xaml.cs:60-62 | Handling batches `a + b` is handling `a` and then `b`. |
| Redraw.Deliver | Neovim/NeovimClient.cs:41-50 | A notification that is not `redraw` changes nothing. A `redraw` with list params runs the handler on exactly that list; any other `redraw` throws. |
| Redraw.DeliverAll | Neovim/MsgPackIO.cs:231-240 | Notices are delivered in order, and the first that throws ends the run. Nothing delivered leaves the window as it was. |
| Redraw.DeliverAllAppend | Neovim/MsgPackIO.cs:231-240 | Delivering notices `a + b` is delivering `a` and then `b`. |
| Redraw.WpfRead | Neovim/MsgPackIO.cs:198-243 | The read loop with the `Wpf` window subscribed (Neovim/MainWindow.xaml.cs:39) runs the filter and the handler on each notification before the next frame. Any exception ends the read. The id and the slot keys are kept. |
| Redraw.WpfReadIsHandleThenDeliver | Neovim/MsgPackIO.cs:198-243 | Reading with the handler inside the loop succeeds exactly when handling all frames and then delivering their notices succeeds. Both ways end in the same transport state and window. |
| Redraw.WpfTitleEndsRead | Neovim/MainWindow.xaml.cs:124-126 | A `set_title` notification throws inside the `Wpf` read loop, so no frame after it in the read is handled, whatever it is. |
| Redraw.MalformedRedrawEndsRead | Neovim/NeovimClient.cs:41-50 | A `redraw` whose params are not a list throws in the filter inside the loop and ends the read. |
| Redraw.IgnoredBatch | NeovimGUI/MainWindow.xaml.cs:68-152 | A batch with an ignored name changes nothing when it is well formed, and throws when some tuple is not a list. |
| Redraw.ResizeReadsColumnsThenRows | NeovimGUI/MainWindow.xaml.cs:64-66 | `resize` reads `[columns, rows]`, and shrinking this way keeps the top-left region. |
| Redraw.CursorGotoReadsRowThenColumn | NeovimGUI/MainWindow.xaml.cs:122-124 | `cursor_goto` reads `[row, column]`, puts the caret there and changes no cell. |
| Redraw.SetTitleOnlyRenames | NeovimGUI/MainWindow.xaml.cs:109-111 | In the `Gui` handler, which runs on the window's thread, `set_title` sets the title from the first tuple's string and changes nothing else. The `Wpf` handler (Neovim/MainWindow.xaml.cs:124-126) runs on the reader's thread, so setting the title throws. |
| Redraw.HighlightResetsOmitted | Neovim/MainWindow.xaml.cs:89-117 | `highlight_set` highlights with the style its tuples build from white, normal weight and upright. An attribute that no entry names keeps that starting value, so nothing carries over from an earlier `highlight_set`. |
| Redraw.PutSplits | Neovim/MainWindow.xaml.cs:128-135 | One `put` of tuples `a + b` equals a `put` of `a` followed by a `put` of `b`. |
| Redraw.ScrollDownDiffers | Neovim/MainWindow.xaml.cs:141-143 | The unsigned-byte handler throws on a scroll of -1. The signed-byte handler scrolls down. |
| Redraw.ScrollUpAliasesOnlyInWpf | NeovimGUI/MainWindow.xaml.cs:126-128 | Scrolling up aliases two rows in the unsigned-byte handler, and never in the signed-byte handler. |

## Left out

- Process launch, pipes, `BeginRead`/`EndRead`, the error-stream reader and
  `Debugger.Break` are left out. They are I/O or debugging aids, and
  `Debugger.Break` is treated as a no-op. A read is given as the sequence of
  objects the unpacker decoded from it.
- The byte-level MessagePack encoding and decoding (`Packer`, `Unpacking`)
  and the wrapper class in NeovimClient/MessagePackObject.cs are foreign
  library code, replaced by the `Value` datatype. How a C# argument object
  is packed into a `Value` is outside the model.
- The `Encoding.Default` round trip of the packed request bytes is left
  out, and so is the decoding of `put` payloads. Text and binary strings
  share one `Str` constructor, read under a one-byte-per-character code
  page, so decoding concatenated payloads is concatenating their texts.
- Threads, `await`, the dispatcher (`UpdateTerminal`, `Post`,
  `DisableProcessing`) and the UI context are concurrency. Each call is one
  atomic step; resumption after `await` is the separate step
  `MsgPackIO.Resume`.
- An exception ends the modelled operation with `Failure`. Changes the C#
  code made to the mutable grid before it threw are not kept. One example
  is the `Enabled` flag left false by a scroll that throws.
- Rendering, pixel positions, cell sizes, font families, `InvalidateVisual`
  and the caret rectangle's own brushes and width are left out; so are
  `normal_mode`/`insert_mode` setting the caret rectangle's width. They are
  drawing only. The `Wpf` `normal_mode` still reads cell (0, 0), so it
  still throws on an empty grid.
- `Window_SizeChanged`, the key handler and Neovim-Client/Input.cs are
  left out: they are window-system and Win32 input code.
- The example programs under Example/ and NeovimTK/, and
  NeovimGUI/TerminalTst.cs, are left out as rendering code.
- NeovimClient.ExtToInt64: the `Array.Reverse` branch for big-endian hosts
  is not modelled. The model reads the body little-endian, as on the hosts
  the program targets.
- NeovimClient.Unmarshal: `ToObject` is not modelled beyond returning the
  value itself, because the conversion to CLR objects is library code.
  `AsString()` and `AsString(Encoding.Default)` are treated alike.
- NeovimClient.Call models the application copy of the transport, the one
  the typed wrappers use. The client library copy differs only in reading
  the response id as a long (`MsgPackIO.Variant`).
- MsgPackIO.InvPreserved states the id invariant only while `_msgId` is
  below 2^31-1. After 2^31 requests the id wraps to a negative value.
- NeovimGUI/MainWindow.xaml.cs calls `_term.TCursor` where
  NeovimGUI/Terminal.cs names the caret field `TerminalCursor`. Both are
  modelled as the one caret.
- The client library copy's `OutputCallback` keys its slot table by long
  and the application copy by int. A response whose id has no slot throws
  `KeyNotFound` in both. This is modelled as the code does it, not as a
  response to be ignored.
- Values.AsString, Values.AsBinary, Values.AsList and Values.AsDictionary
  fail on `Nil`, and a null reference is not part of the model. The
  library's own object type, which the application copies under Neovim/
  read, returns null from all four. The wrapper class in
  NeovimClient/MessagePackObject.cs, which the client library's parser and
  transport read, returns null only from the string and binary narrowings.
  Its list and dictionary narrowings throw on `Nil`, as the model does.
- NotificationParser.ParseBatch fails on a batch whose name is `Nil`. The
  wrapper's string narrowing gives a null name, which matches no case, so
  the C# parser drops the batch. A `Nil` batch or tuple throws in C# as
  well, in the wrapper's list narrowing.
- Redraw.ApplyBatch fails on a batch whose name or some tuple is `Nil`. The
  `Wpf` handler reads the library's own objects, so it ignores a null name
  and keeps a null tuple until a case indexes into it.
- MsgPackIO.HandleFrame fails on a 3-element frame whose method is `Nil`.
  The C# reader raises a notice with a null method, which the client's
  `redraw` filter then ignores.
- Redraw.ApplyEntry fails on a `Nil` key. The C# loop compares a null key
  with no attribute name and skips the entry.
- Redraw.Dispatch fails on a `Nil` title in `set_title`. The `Gui` handler
  sets a null title.
- NeovimClient.Unmarshal fails on a `Nil` result for the string wrappers,
  which return null in C#. It also fails on a `Nil` element of a string
  list, which C# keeps as a null element. A `Nil` list result throws in C#
  as well, when `Select` meets the null list.
- Redraw.Dispatch: the `Wpf` handler hands every terminal update to the
  dispatcher, so the C# code reads those arguments later, on the window's
  thread. The model applies each update at once. `set_title` is the one
  case the handler does itself, and it throws.
- MsgPackIO.OutputCallback handles a read with no subscriber. With the
  `Wpf` window subscribed, the loop is `Redraw.WpfRead`, where an exception
  from the `redraw` filter or the handler ends the read. After any
  exception `BeginRead` is not issued again, so the reader receives nothing
  more. Later reads are not modelled.
- The `Gui` window posts its handler to the window's thread, so only the
  filter runs inside its read loop, and only the filter's exception ends
  that read. That loop is not modelled separately.
