# A verified model of the `ui` line viewer/editor

`ui` reads the text file named by its first argument (or, when no file is
named and standard input is not a terminal, standard input) and shows it on
the terminal one frame at a time. The frame has `height - 2` rows. Each row is one input line:
its terminator is stripped, its tabs are expanded to 4-column stops, it is cut
to the terminal width, and a coloured arrow shows the terminator if there is
room. The line under the cursor is opened in a line editor. When the edit is
confirmed, the text is stored back with the line's original terminator.
Up/Down (Ctrl-P/Ctrl-N) confirm the edit and move the cursor. The frame
scrolls just enough to keep the cursor visible. Escape ends the session.
Lines are read from the input lazily, only when a frame reaches an index the
buffer does not hold yet.

The project has four modules, following `main.go`:

- `Text` (`text.dfy`) covers the string helpers.
  - `Chomp` splits off the terminator.
  - `CutStrInWidth` is the width-bounded prefix loop. `CutInWidth` is its
    specification.
  - `Detab` is the replace-the-first-tab loop. Its specification is
    `Detabbed`, and `Expand` is a one-pass reference definition of tab
    expansion.
  - The terminal's rune-width table is a parameter `rw: char -> nat`.
- `LineFeed` (`linefeed.dfy`) covers the line buffer with its reader and the
  supplier closure that `main2` hands to `Draw`.
  - `ReadString` models `bufio.Reader.ReadString('\n')` over the unread input.
  - `Pull` is one call of the closure on a value `Feed`.
  - `LineStore` is the class holding the mutable buffer, reader position and
    counter. Its method `Next` is the closure body, proved equal to `Pull`.
- `Render` (`render.dfy`) covers `View.Draw`.
  - `RenderRow` specifies the row written for one raw line.
  - `FrameLines` specifies what one `Draw` does with the supplier.
  - `View.Draw` is the loop itself. It updates the `cache` field in place and
    pulls lines through a `LineStore`.
- `Controller` (`controller.dfy`) covers `getline`'s terminator
  re-attachment (`Getline`), the cursor/headline update (`Scroll`,
  `ScrollAll`) and the main loop.
  - On values, a `Screen` is everything one pass of the loop reads and
    writes: the supplier's state, the cache, the headline and the cursor.
  - `Framed` draws a frame. `Pass` draws a frame and then commits an edit.
    `Replay` folds `Pass` over a session of edits.
  - The class `Pager` holds the loop's state in place.
  - `DrawFrame` draws a frame.
  - `Commit` stores an edit and moves the cursor.
  - `Step` does one pass of the loop.
  - `Run` runs the loop over a whole session of edits.
  - One line-editor session is a value `Edit`: the edited text and the key
    that ended it (Up, Enter or Down), or an interrupt.

Facts about the code, as written:

- **The skip branch never runs.** The branch at main.go:76-78 is evidently
  meant to skip redrawing a row equal to the cached one, but its guard
  (main.go:75) can never hold. The cache grows by one entry per row drawn,
  so `len(cache) < rowIndex` is always false, and every row is always
  written. The model proves this: the branch is `assert false`. The model
  follows the code.
- **The cache keeps growing.** It gains one entry per row drawn in every
  frame.
- **A last line without `'\n'` is not drawn in the frame that reads it.**
  That line is read together with the end-of-input error. It is stored in
  the buffer, and `Draw` stops at the error without drawing it. Later frames
  draw it from the buffer. Each later frame that reaches the end of the
  buffer appends one more empty entry, read at end of input.
- **The main loop needs at least 3 rows.** With fewer, the frame has no rows
  and `buffer[csrline]` indexes an empty buffer, so the loop requires
  `height >= 3`.

## Model

| member | source | states |
|---|---|---|
| Text.Chomp | main.go:54-67 | The content and the terminator put back together are the line, and the terminator is CRLF, LF, CR or empty. |
| Text.ChompCases | main.go:54-67 | The terminator is CRLF exactly when the line ends in CRLF. It is LF exactly when the line ends in LF but not CRLF, and CR exactly when the line ends in CR. It is empty exactly when the line ends in neither. |
| Text.ChompRecovers | main.go:54-67 | Chomping text + terminator gives back exactly that text and terminator if and only if the text's last rune cannot be taken for part of a terminator. |
| Text.StringWidthAppend | main.go:50 | The width of a concatenation is the sum of the widths of its parts. |
| Text.CutInWidthFits | main.go:28-38 | The result is the longest prefix, cut at a rune boundary, that fits the budget. Its reported width is the sum of its runes' widths. The next rune would overflow the budget. A string that fits is kept whole. |
| Text.CutStrInWidth | main.go:28-38 | The rune loop returns the prefix and width given by the specification `CutInWidth`. |
| Text.Spaces | main.go:50 | `strings.Repeat(" ", n)` consists of exactly n spaces. |
| Text.IndexOf | main.go:46 | Returns -1 exactly when there is no tab. Otherwise it returns the position of the first tab. |
| Text.TabPad | main.go:50 | A tab becomes 1 to 4 spaces, and the text before it plus the padding is a multiple of 4 columns wide. |
| Text.Detabbed | main.go:44-52 | The result has no tab left, and a line without tabs is unchanged. |
| Text.DetabbedLength | main.go:44-52 | Expansion never shortens a line and adds at most three runes per tab. |
| Text.Detab | main.go:44-52 | The loop that replaces the first tab until none is left computes `Detabbed`. |
| Text.DetabbedIsExpand | main.go:44-52 | Replacing the first tab repeatedly gives the same result as the one-pass left-to-right expansion `Expand`. |
| Text.SpacesWidth | main.go:50 | With single-column spaces, n spaces are n columns wide. |
| Text.TabEndsOnStop | main.go:50 | With single-column spaces, the text up to and including a tab's padding ends on a 4-column stop. |
| Text.DetabIdempotent | main.go:44-52 | Expanding an already expanded line changes nothing. |
| Text.DetabExample | main.go:44-52 | With a one-column rune a, "a\tb" becomes "a   b". |
| LineFeed.ReadString | main.go:180 | The text read and the input left put back together are the input. End of input is reported exactly when the input has no '\n', and then nothing is left. |
| LineFeed.ReadStringLine | main.go:180 | Unless end of input was hit, the text read ends with '\n' and holds no earlier '\n'. |
| LineFeed.Pull | main.go:176-185 | The counter advances by one and the line returned is the buffer entry at the old counter. Without a read, the buffer and input are unchanged and there is no error. When the counter is at the buffer's end, it reads exactly one line from the input and appends it. That line plus the new rest is the old rest, and the error is reported exactly when the input held no '\n'. |
| LineFeed.LineStore.constructor | main.go:170-173 | The buffer starts empty, with the whole input unread. |
| LineFeed.LineStore.Rewind | main.go:175 | A new closure's counter starts at the headline. |
| LineFeed.LineStore.Next | main.go:177-184 | The closure body returns the line and error that `Pull` specifies, and leaves the state `Pull` specifies. |
| LineFeed.LineStore.Set | main.go:195 | Committing an edit replaces only the cursor line's entry. |
| Render.Glyph | main.go:86-93 | A terminator is shown by a glyph, and the glyph is empty exactly when there is no terminator. |
| Render.GlyphsDistinct | main.go:86-93 | CRLF, LF and CR are shown by three different glyphs. |
| Render.RenderRowShape | main.go:84-101 | A row shows a tab-free prefix of the chomped, expanded line that fits the width, or the whole line when it fits. It shows a glyph exactly when the line has a terminator and the text is narrower than the width, and that glyph is the terminator's. |
| Render.DrawRow | main.go:84-101 | Chomping, picking the glyph, expanding tabs and cutting to width give the row that `RenderRow` specifies. |
| Render.FrameLines | main.go:70-74 | The supplier's counter never runs past the buffer. |
| Render.FrameLinesCalls | main.go:70-74 | A frame with the error draws fewer than height lines and one without it draws exactly height. The supplier is called once per line drawn, plus once for the error. An error happens only when the input is used up. |
| Render.FrameLinesLength | main.go:178-183 | During a frame, the buffer grows only as far as the counter got: one entry per new index. |
| Render.FrameLinesGrowth | main.go:178-182 | Drawing a frame never changes an entry already in the buffer. |
| Render.FrameLinesDrawn | main.go:176-185 | The lines drawn are the buffer entries from the counter's start on, in order. |
| Render.CursorLineMaterialized | main.go:175-191 | If the cursor is in the frame and at most one past the buffer's end, it indexes a buffer entry after the frame. |
| Render.FrameConsumesInput | main.go:178-181 | The entries a frame appends, joined together with the unread rest, are exactly the input that was unread before the frame. Nothing is lost or reordered. |
| Render.FrameFromLines | main.go:70-108 | The loop's accumulating definition agrees with `FrameLines`. |
| Render.View.constructor | main.go:157 | The view starts with an empty cache. |
| Render.View.Draw | main.go:69-109 | Draw pulls the lines `FrameLines` specifies and leaves the supplier in the state it specifies. It appends exactly the drawn lines to the cache, and writes one row per drawn line as `RenderRow` renders it. It returns the number of rows drawn when the supplier errs, else height, and never more than height. |
| Controller.Getline | main.go:111-154 | The result is exactly the edited text followed by the line's original terminator: its length is their total, it starts with the text and ends with the terminator. An unedited line comes back unchanged. Chomping the result recovers the edited text and the terminator if and only if they are reattachable. |
| Controller.Scroll | main.go:199-208 | A move above line 0 changes nothing. Otherwise the cursor moves and ends up on screen whatever the headline was before. A cursor that was visible stays visible. The headline stays put when the new cursor line is visible. Below the window it scrolls down just enough that the cursor is the bottom row. Above the window the cursor becomes the headline. |
| Controller.ScrollAllInWindow | main.go:199-208 | Over any sequence of moves, the cursor stays on screen and never goes above line 0. |
| Controller.Framed | main.go:175-185 | A frame drawn from the headline leaves the cursor line in the buffer. Entries already in the buffer and the cache are unchanged, and the cursor and headline stay put. |
| Controller.Pass | main.go:174-209 | A pass of the loop with a committed edit keeps the cursor on screen and at most one past the buffer's end (the next line to be read). The buffer never shrinks, and no entry except the cursor line changes. |
| Controller.Replay | main.go:174-209 | However many edits a session commits, the cursor stays on screen and at most one past the buffer's end (the next line to be read), and the buffer never shrinks. |
| Controller.ReplayScrolls | main.go:199-208 | After a session, the cursor and headline are where `ScrollAll` of its moves leads. |
| Controller.ReplayKeepsLines | main.go:195 | A buffer entry the cursor never rests on during a session is still in the buffer afterwards, with its contents unchanged. |
| Controller.TraceIsReplay | main.go:174-209 | A trace of screens in which each one is a pass after the one before ends where `Replay` of the session ends. |
| Controller.Pager.constructor | main.go:156-173 | The loop starts with the cursor and headline at 0, an empty buffer and an empty cache. |
| Controller.Pager.DrawFrame | main.go:175-185 | The frame drawn from the headline is as `FrameLines` specifies. Existing buffer entries are unchanged, and afterwards the cursor line is in the buffer. |
| Controller.Pager.Commit | main.go:190-208 | An interrupt ends the loop and changes nothing. Otherwise only the cursor line's entry is replaced, by `Getline` of it. Cursor and headline move as `Scroll` says, and the cursor stays visible. |
| Controller.Pager.Step | main.go:174-209 | The rows written are the frame's lines rendered. The whole new state (buffer, unread input, counter, cache, headline and cursor) is `Pass` of the old one, or just `Framed` of it when the edit was interrupted. The cursor stays visible. |
| Controller.Pager.Run | main.go:174-209 | The loop commits the edits of a session up to the first interrupt. The returned trace starts at the old state, and each screen in it is `Pass` of the one before with the next edit. The final state is the trace's last screen, or that screen with one more frame drawn when an interrupt ended the loop. The cursor stays visible. |

## Left out

- Terminal output beyond the rows is not modelled. This covers the ANSI
  colour, erase and cursor-visibility sequences (main.go:19-26, 99-106), the
  cursor-up arithmetic that uses Draw's return value (main.go:186-189,
  196-198), and the extra newline written after each frame. A row is
  modelled as its text and glyph.
- Opening the tty and querying its size (main.go:159-168), and `main1`/`main`
  with command-line handling (main.go:213-240), are not modelled. They are
  I/O. Width and height are parameters.
- The line editor (`readline.Editor`, main.go:113-152) is replaced by the
  `Edit` value it produces. Its key bindings are reduced to the move they
  make (-1, 0, +1), and any error to `Interrupted`. The editor is a library
  outside this model.
- `runewidth.RuneWidth` is the parameter `rw`, and `runewidth.StringWidth` is
  modelled as the sum of `rw` over the string's runes. The library's width
  tables are not part of this model.
- Strings are sequences of runes, so the U+FFFD that Go's `range` yields for
  each invalid UTF-8 byte in `cutStrInWidth` (main.go:30) cannot be
  represented; the model assumes valid text.
- Read errors other than end of input are not modelled. The input is a
  string, so `ReadString` can only fail at its end.
- Go indexes strings by byte: `IndexByte`, slicing and `len` in chomp. The
  model indexes by rune. The two agree because every byte the code compares ('\n',
  '\r', '\t') is ASCII and cannot occur inside a multi-byte UTF-8 sequence.
- Render.View.Draw: only the supplier that `main2` passes (the buffer
  closure, a `LineStore`) is modelled, not an arbitrary function value.
- Controller.Pager.constructor: requires `height >= 3`. With fewer rows,
  `main2` indexes an empty buffer and panics.
- Controller.Pager.Run: the session is a finite sequence of edits. The
  model does not capture the unbounded interactive loop. Its ensures state
  the trace of screens. The cursor positions follow from
  `TraceIsReplay` and `ReplayScrolls`.
