# mlib terminal browser: frame, listing and key handling

This project models the computational core of the first version of the mlib
terminal browser, `src/main.rs`. On every redraw the program asks the terminal
for its size and clamps it to 120 columns by 20 rows. It clears the screen and
draws a box-drawing frame with `draw_rect`. It lists the entries of the
working directory, one per row, from row 1 at column 2, and then flushes
stdout. Between redraws a key event with the code `q` quits.

Everything the program writes to stdout is modelled as a sequence of draw
operations (`Term.Op`):

- `Clear`: the screen clear.
- `Put(x, y, text)`: a cursor move to (x, y) followed by printing `text`.
- `Flush`: the final flush.

The methods return the sequence of ops they queue. The specification functions
(`Rect.RectOps`, `Screen.ListOps`, `Screen.Frame`) state that sequence
outright, and the lemmas prove what it means:

- which cells are drawn, and with which glyph;
- in which order they are drawn;
- how many are drawn;
- where each directory entry lands.

Integers that the source holds in `u16` are `Term.U16`. The listing row
counter is a `u16` starting at 1. In a debug build, the increment after the
65535th entry panics, and `Screen.Draw` reports this as `RowOverflow`. The
size query `crossterm::terminal::size()` is an input of type
`Screen.SizeReport`. When it fails, `draw` returns the error before writing
anything. The directory listing is an input `seq<string>` of entry names.
`read_dir("./")` yields `./` joined with each name, so `./<name>` is the text
drawn.

The frame is drawn as written: `draw_rect(0, 0, w, h)` with the clamped size
(w, h). Its right and bottom edges therefore land on column w and row h, one
past the last cell of a terminal whose size is at most (120, 20). The model
keeps this exactly.

The event loop redraws only after an event has arrived. When `event::poll`
times out, nothing is redrawn (`Keys.Tick`).

## Model

| member | source | states |
|---|---|---|
| Term.Min | src/main.rs:42 | `min` on `u16`: the result is at most both arguments and is one of them |
| Screen.EffectiveSize | src/main.rs:40-42 | the clamped size is (min(w, 120), min(h, 20)): each component is at most its maximum and at most the terminal's own size, and equals one of the two |
| Rect.Text | src/main.rs:75-85 | the string of a `match` arm is empty exactly for the fall-through arm, which is what the `c != ""` test skips |
| Rect.GlyphChoice | src/main.rs:75-83 | a cell gets a glyph exactly when it lies on the first or last column or row. Where a vertical and a horizontal edge meet it gets ┌, └, ┐ or ┘, in the arm order, so that when x1 == x2 or y1 == y2 the earlier arm wins. The rest of a vertical edge gets │ and the rest of a horizontal edge gets ─ |
| Rect.DrawRect | src/main.rs:72-95 | the nested `for x in x1..=x2 { for y in y1..=y2 }` loops queue exactly `RectOps(x1, y1, x2, y2)`: column by column, the glyph of each cell that has one |
| Rect.RectOpsSound | src/main.rs:73-90 | every queued op draws a cell inside [x1, x2] x [y1, y2] that lies on the border, with that cell's glyph, and the ops come in x-outer, y-inner order |
| Rect.RectOpsWithin | src/main.rs:73-90 | the same containment, by position: the k-th op draws a border cell inside the rectangle |
| Rect.RectOpsComplete | src/main.rs:73-90 | every border cell inside the rectangle is drawn with its glyph, so interior cells are the only ones left out |
| Rect.RectOpsAtMostOnce | src/main.rs:73-74 | no two queued ops draw the same cell |
| Rect.RectOpsEmpty | src/main.rs:73-74 | nothing is queued exactly when x2 < x1 or y2 < y1 (the inclusive ranges are empty) |
| Rect.RectOpsCount | src/main.rs:73-90 | the number of queued ops is the number of border cells: a full column or row for a degenerate rectangle, 2(w + h) - 4 otherwise |
| Rect.SingleCellRect | src/main.rs:76-79 | a 1 x 1 rectangle queues only ┌ at its cell |
| Rect.ColumnsFromOrdered | src/main.rs:73-74 | the columns from x onwards are drawn in x-outer, y-inner order |
| Rect.ColumnsFromComplete | src/main.rs:73-85 | every border cell in the columns from x onwards is drawn |
| Screen.ListOpsLayout | src/main.rs:47-52 | the listing queues one op per entry, and the i-th entry in enumeration order is drawn at column 2, row 1 + i, as `./` followed by its name, with nothing filtered, reordered or cut off |
| Screen.ListOpsAt | src/main.rs:47-52 | the same layout for one given entry |
| Screen.DrawList | src/main.rs:48-52 | the loop with its `u16` row counter queues the layout of all entries. With 65535 or more entries it queues the first 65535 and then overflows |
| Screen.Draw | src/main.rs:37-57 | a failed size query writes nothing. Otherwise `draw` writes Clear, the frame of the clamped size from (0, 0), the listing and Flush; on row overflow it stops after the 65535th entry, without a flush |
| Screen.BorderOpsCount | src/main.rs:42-45 | the frame of a redraw has one op per border cell of the clamped rectangle |
| Screen.BorderOpsWithin | src/main.rs:42-45 | every op of the frame of a redraw draws a border cell of the clamped rectangle |
| Screen.FrameBorder | src/main.rs:37-57 | a normal redraw is a Clear, then one op per border cell of the clamped rectangle, each inside it, then exactly the listing `ListOps(names)`, then a Flush |
| Screen.FrameEntry | src/main.rs:44-52 | in a normal redraw, after the Clear and the frame, the i-th entry is drawn at column 2, row 1 + i |
| Screen.FrameShape | src/main.rs:44-54 | a normal redraw starts with Clear, ends with Flush, and holds the frame's ops right after the Clear |
| Keys.Input | src/main.rs:28-35 | `input` quits exactly for the key code `Char('q')`, whatever the modifiers and the event kind; every other key does nothing |
| Keys.Dispatch | src/main.rs:14-21 | of all events, only a key event with code `Char('q')` quits; focus, mouse, paste and resize events do nothing |
| Keys.Tick | src/main.rs:12-25 | one turn of the loop: does nothing on a poll timeout, exits on `q`, and redraws after any other event |

## Left out

- Raw mode, the alternate screen, hiding and showing the cursor, and `process::exit` (src/main.rs:6-8, 97-102) are terminal I/O. `quit` is the `Quit` action.
- The `Clear` and `Flush` ops stand for `execute(Clear)` and `flush()`. Their own I/O errors, and those of `queue`, are not modelled.
- Colours (`fg` and `bg`, both white) do not affect geometry and are dropped. `Put` carries no style.
- `fs::read_dir` is an input sequence of names. Its `unwrap`s, the panics on unreadable entries and on names that are not UTF-8, and the enumeration order the operating system chooses are not modelled.
- The polling loop itself, with its one-second timeout, is I/O scheduling. Only one turn of it (`Keys.Tick`) is modelled.
- Screen.DrawList: in a release build the `u16` row counter wraps around instead of panicking. The model follows the debug build.
- The payloads of `KeyCode::Media` and `KeyCode::Modifier`, and the data of mouse events, are not kept, because dispatch ignores them.
- `KeyEvent` leaves out crossterm's `state: KeyEventState` field (keypad, caps lock and num lock flags), because `input` looks only at the key code.
- An I/O error inside `quit` (src/main.rs:98-100) is propagated through `input` (src/main.rs:30) and ends `main` with `Err`. The model does not represent this path: `Quit` stands for the successful exit only.
