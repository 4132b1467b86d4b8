# snack editing core in Dafny

snack is a small modal terminal editor. A buffer is a doubly linked list of
`Line` records. Each record holds its bytes in LINSIZ-sized buckets of
storage, caches its byte length and its UTF-8 character count (its "visual
length"), and has a dirty flag. The editor
reads one UTF-8 character at a time into a 7-byte buffer `c`, looks it up in
the `key_maps` table for the current mode (Normal, Insert or the unwired
Replace), runs the bound action, and in Insert mode inserts the keystroke at
the cursor with `internal_insert`.

This project models that core:

- `snack.dfy` (module `Snack`): the header's constants and types
  (`LINSIZ`, `BUCKETS`, `Mode`, the `Status` bits as a 64-bit word) and the
  value a line record holds.
- `utf8.dfy` (module `Utf8`): `utf8_width`, `utf8_characters` (a
  specification function, the two loops of the source as methods proved
  against it, and its meaning: ERR exactly when the text cannot be cut into
  whole characters; the count of an RFC 3629 encoding is its number of
  scalar values), and `utf8_wgetch` over a sequence of read results.
- `config.dfy` (module `Config`): the `key_maps` table in order and the
  `strncmp` prefix lookup of `internal_command`. The lookup is worked out
  for every keystroke: one byte gets its binding, longer keystrokes none,
  and the empty keystroke gets the mode's first entry.
- `motion.dfy` (module `Motion`): the eight cursor actions on a view of
  the buffer (the visual lengths, the `last_line` index, the cursor and
  `offset_prev`), with the sticky-column property over any run of vertical
  moves.
- `insertion.dfy` (module `Insertion`): `internal_insert` as a function on
  line records. Its shape is proved for all text: one new line per
  newline, everything else kept in place, every written line consistent
  and dirty. Its content and bucket counts are proved for ASCII text, plus
  worked examples of the byte-index quirks below.
- `buffer.dfy` (module `Buffers`): the heap. `Line` and `Position`
  classes, a `Buffer` class whose `Insert` method runs the byte loop of
  `internal_insert` over the linked list and is proved to produce exactly
  `Insertion.Insert`, the tail assignments of `internal_loadfile`, and the
  eight cursor actions proved against `Motion`.
- `editor.dfy` (module `Editor`): the globals (`c`, `current_buffer`,
  `current_mode`, `current_status`) as a class. `internal_setup`, the bool
  actions, `internal_command` and `internal_edit` are methods, each proved
  against a function on a `Snapshot` of the editor. Lemmas state the
  dispatch facts (which keystrokes quit, switch modes or get inserted)
  and that typing plain ASCII in Insert mode inserts it at the cursor.

Behaviour of the code that the model keeps as written:

- The final append of `internal_insert` never raises the bucket count
  (src/snack.c:181-187), so a split-off last line can end up longer than
  its storage (`Insertion.TailOutgrowsSplitLine`,
  `Insertion.TailOutgrowsExample`).
- `internal_command` compares with `strncmp(c, operator, strlen(c))`, a
  prefix test (src/snack.c:46-54). Against the table's one-byte operators a
  non-empty keystroke matches exactly as an equality would
  (`Config.PrefixTestIsEquality`), and the empty keystroke matches the
  mode's first entry (`Config.LookupEmpty`), so a NUL read quits in Normal
  mode (`Editor.QuitIff`).
- A false return from the bound action (only the two mode switches return
  false) skips the insertion; a true return, or no match, inserts the
  keystroke when the mode is Insert (src/snack.c:80-86,
  `Editor.InsertsKeyIff`).
- With no neighbour, `action_move_nextline` goes to the end of the current
  line and `action_move_prevline` to its start. On arrival at a line the
  column is the line's visual length when that is shorter than either the
  cursor offset or `offset_prev`, and `offset_prev` otherwise
  (src/snack.c:455-458, `Motion.Reconcile`).
- `internal_insert` uses the character offset as a byte index, and it
  compares the offset with the visual length, not the byte length, to
  decide whether to detach the rest of the line (src/snack.c:143-151).
  Inserting a two-byte character in the middle of "abcd" leaves a malformed
  line (`Insertion.MultiByteMiddleInsert`).
- When a line is malformed, `utf8_characters` returns ERR and
  `internal_insert` stores that -1 in `visual_length` (src/snack.c:153),
  and the cursor actions then read it as the line's length.
- `internal_insert` never updates `last_line`, so after a newline is
  inserted in the last line it points at a line that is no longer last
  (`Buffers.LastAfter`, `Buffers.Buffer.InsertAtCursor`).

## Model

| member | source | states |
|---|---|---|
| Snack.BucketsIsCeiling | src/snack.h:32 | BUCKETS(n) buckets of LINSIZ bytes hold n bytes and one fewer would not; it is zero exactly for n = 0 |
| Snack.BucketsExamples | src/snack.h:28-32 | with LINSIZ = 64, 0, 1, 64, 65 and 128 bytes need 0, 1, 1, 2 and 2 buckets |
| Snack.BucketsMonotone | src/snack.h:32 | more bytes never need fewer buckets |
| Snack.ExactlyThreeModes | src/snack.h:35-39 | every mode is one of Mode_normal, Mode_insert and Mode_replace, and the three are distinct |
| Snack.StoppedBits | src/snack.h:41-44 | clearing Status_running stops the loop and leaves Status_dirty as it was |
| Snack.DirtiedBits | src/snack.h:41-44 | setting Status_dirty leaves Status_running as it was |
| Snack.EmptyLineConsistent | src/snack.c:158-163 | the line calloc'd at a newline has cached lengths that agree with its empty content, and it fits its one bucket |
| Utf8.Strlen | src/snack.c:46 | strlen is the index of the first NUL (or the whole length when there is none): every byte before it is non-NUL |
| Utf8.WidthBits | src/utf8.c:3-17 | utf8_width's bit tests give a width from 1 to 6 for every byte |
| Utf8.WidthBitsIsWidth | src/utf8.c:3-17 | the bit tests agree on every byte with the width read off the byte's range |
| Utf8.WidthByRange | src/utf8.c:3-17 | ASCII bytes have width 1 and the RFC 3629 lead-byte ranges have widths 2 to 6; 0xFE and 0xFF fall back to 1, and a continuation byte gets the width of that byte plus 0x40 |
| Utf8.WidthOneBytes | src/utf8.c:3-17 | the width is 1 exactly for ASCII bytes and for bytes whose low six bits are 0x3E or 0x3F |
| Utf8.Characters | src/utf8.c:19-36 | utf8_characters is ERR or a count no larger than the byte length, and 0 for the empty string |
| Utf8.SkipContinuations | src/utf8.c:27-31 | the inner loop succeeds exactly when the bytes announced by the lead byte are all continuation bytes, and then ends just past them |
| Utf8.CountCharacters | src/utf8.c:19-36 | the loops of utf8_characters compute the specification Characters |
| Utf8.CharactersAscii | src/utf8.c:19-36 | NUL-free ASCII text has as many characters as bytes |
| Utf8.CharactersAsciiCons | src/utf8.c:24-25 | an ASCII byte in front adds one character and keeps an ERR |
| Utf8.CharactersMissingContinuation | src/utf8.c:27-30 | a lead byte of width 2 or more not followed by a continuation byte makes the count ERR |
| Utf8.CharactersChunkCons | src/utf8.c:24-32 | a whole character in front adds one and keeps an ERR |
| Utf8.CharactersOfChunks | src/utf8.c:19-36 | a string made of whole characters, then a NUL or the end, counts as that many characters |
| Utf8.CharactersSound | src/utf8.c:19-36 | a count other than ERR comes with a cut of the string into exactly that many whole characters |
| Utf8.MalformedIff | src/utf8.c:19-36 | the count is ERR if and only if the string cannot be cut into whole characters |
| Utf8.EncodeIsChunk | src/utf8.c:3-17 | the RFC 3629 encoding of a non-NUL scalar value is one whole character by utf8_width |
| Utf8.CharactersOfEncoding | src/utf8.c:19-36 | the RFC 3629 encoding of n non-NUL scalar values counts as n characters |
| Utf8.FirstFail | src/utf8.c:50-53 | the continuation-byte loop stops at the first read that comes back ERR, or at the width |
| Utf8.Consumed | src/utf8.c:41-53 | one utf8_wgetch call takes at least one read and no more than the width of its first byte |
| Utf8.Keystroke | src/utf8.c:46-58 | the keystroke left in c is 7 bytes, begins with the first byte read and ends in NUL |
| Utf8.KeystrokeAscii | src/utf8.c:41-58 | an ASCII read is not ERR; it leaves that byte followed by six NULs, takes one read, and has strlen 1, or 0 for a NUL |
| Utf8.ReadContinuations | src/utf8.c:49-56 | the multi-byte branch stores the reads up to the first ERR and clears the rest of c |
| Utf8.Wgetch | src/utf8.c:38-61 | an ERR first read returns ERR and leaves c alone; any other returns the width, leaves Keystroke(input) in c and consumes Consumed(input) reads |
| Config.StrncmpEqualFrom | src/snack.c:54 | strncmp(s1, s2, n) == 0 holds exactly when the strings agree at every index before n up to the first NUL of s1 |
| Config.FirstMatch | src/snack.c:52-58 | the scan stops at the first entry for the mode that passes the test, and no earlier entry passes |
| Config.OperatorsAreOneByte | src/config.h:96-112 | every operator of key_maps is a single non-NUL byte |
| Config.PrefixTestIsEquality | src/snack.c:46-54 | against a one-byte operator, the strncmp prefix test on a non-empty keystroke is string equality |
| Config.EmptyKeyMatchesAll | src/snack.c:46-54 | the empty keystroke passes the test of every entry |
| Config.LookupExact | src/snack.c:52-58 | a non-empty keystroke matches exactly the entries for its mode whose operator equals it |
| Config.MatchesOneByte | src/snack.c:52-58 | a one-byte keystroke matches exactly the entries for its mode whose operator is that byte |
| Config.LookupNormalByte | src/config.h:98-111 | in Normal mode a one-byte keystroke gets the action the table binds to that byte |
| Config.LookupInsertByte | src/config.h:100 | in Insert mode a one-byte keystroke gets action_mode_normal for ESC and nothing otherwise |
| Config.LookupOneByte | src/config.h:98-111 | in every mode a one-byte keystroke gets its binding |
| Config.LookupLong | src/snack.c:52-60 | a keystroke of two or more bytes matches no entry |
| Config.LookupEmpty | src/snack.c:46-55 | the empty keystroke gets the first entry of its mode: quit in Normal mode, mode_normal in Insert mode, nothing in Replace mode |
| Config.LookupTable | src/snack.c:44-61 | the lookup of every keystroke: its binding for one byte, nothing for more, the mode's first entry for none |
| Config.LookupIsBound | src/snack.c:52-60 | the table scan and the closed form Bound agree on every keystroke |
| Config.TableModesActions | src/config.h:96-112 | no entry is for Mode_replace and none binds action_insert_line |
| Config.NoReplaceNoInsertLine | src/config.h:96-112 | Replace mode binds nothing, and no keystroke reaches action_insert_line |
| Config.DistinctPairs | src/config.h:96-112 | no two entries share both a mode and an operator |
| Motion.Reconcile | src/snack.c:455-458 | the arrival column is the line's visual length or offset_prev, within the line when both are counts, and never right of offset_prev unless it is the line's end |
| Motion.Arrive | src/snack.c:453-458 | arriving at a line moves only the cursor line and offset; offset_prev stays |
| Motion.NextLine | src/snack.c:448-464 | with a next line, arrive there; at the last line, go to the line's end and set offset_prev to it |
| Motion.PrevLine | src/snack.c:466-482 | with a previous line, arrive there; at the first line, go to offset 0 and set offset_prev to 0 |
| Motion.NextChar | src/snack.c:484-492 | before the line's end, go one right and set offset_prev to the new offset; otherwise change nothing |
| Motion.PrevChar | src/snack.c:494-501 | after offset 0, go one left and set offset_prev to the new offset; otherwise change nothing |
| Motion.Bof | src/snack.c:503-515 | arrive at the first line as a vertical move would |
| Motion.Eof | src/snack.c:517-529 | arrive at last_line as a vertical move would |
| Motion.Bol | src/snack.c:531-534 | offset and offset_prev both become 0 on the same line |
| Motion.Eol | src/snack.c:536-539 | offset and offset_prev both become the line's visual length |
| Motion.MotionsKeepInRange | src/snack.c:448-539 | when no line's count is ERR, every action keeps the cursor and offset_prev within the line's character count |
| Motion.MotionsSettle | src/snack.c:448-539 | every action keeps the cursor from lying right of offset_prev |
| Motion.StickyStep | src/snack.c:455-458 | from a settled cursor a vertical move lands on the smaller of the line's length and offset_prev |
| Motion.Moves | src/snack.c:448-482 | a run of j and k moves keeps the view well formed, with the same lines and last_line |
| Motion.StickyColumn | src/snack.c:448-482 | over any run of vertical moves that stays inside the list, offset_prev never changes, the line moves by the net count, and the column is min(line length, offset_prev) |
| Motion.NextCharPrevChar | src/snack.c:484-501 | a step right then left away from the line's end returns to the same offset, with that offset as offset_prev |
| Motion.NextLinePrevLine | src/snack.c:448-482 | a step down then up from a cursor at its remembered column that fits both lines returns to the start view |
| Motion.EolBol | src/snack.c:531-539 | going to the line's end and then its start is going to its start |
| Motion.BofEofSingleLine | src/snack.c:503-529 | when last_line is the first line, H and L do the same |
| Insertion.Overwrite | src/snack.c:151 | memcpy into the content gives storage of the requested length |
| Insertion.OverwriteAtEnd | src/snack.c:151 | copying at the end of the content appends |
| Insertion.ZeroPastEnd | src/snack.c:147 | clearing from the end of the content changes no content byte |
| Insertion.WriteSegment | src/snack.c:131-155 | growth to BUCKETS(length + segment) when needed and never shrinking; the rest is detached exactly when the offset is not the visual length; the line is dirty and consistent; writing at the end appends |
| Insertion.AppendTail | src/snack.c:180-195 | the final append sets buckets to min(old buckets, BUCKETS(new length)), so it never grows them; it adds the rest's length and leaves the line consistent and dirty |
| Insertion.Segment | src/snack.c:131-155 | writing a segment keeps the line count and the current line, which stays consistent |
| Insertion.Split | src/snack.c:157-171 | at a newline the current line moves one on and the list gains one line |
| Insertion.NewlineIndex | src/snack.c:129-130 | the index of the first newline, or the length when there is none |
| Insertion.BeforeNewlineIndex | src/snack.c:129-130 | no byte before that index is a newline |
| Insertion.NoNewlines | src/snack.c:129-130 | the newline count is zero exactly when there is no newline byte |
| Insertion.Segments | src/snack.c:129-177 | the text falls into one segment more than it has newlines |
| Insertion.RunSegments | src/snack.c:129-177 | the segment loop ends on a consistent line with p_offset at its visual length |
| Insertion.Advance | src/snack.c:157-175 | after a newline the loop continues on a ready line |
| Insertion.AdvanceIs | src/snack.c:157-175 | after a newline the loop continues at offset 0 of an empty line spliced in right after the current one |
| Insertion.Finish | src/snack.c:179-201 | the end position is on a consistent line that exists |
| Insertion.Insert | src/snack.c:110-202 | internal_insert returns an end position on a consistent line that exists |
| Insertion.RunShape | src/snack.c:129-177 | the segment loop adds one line per newline after the insertion line, keeps the others in place and leaves each written line consistent and dirty |
| Insertion.FinishShape | src/snack.c:179-201 | the final append keeps that shape |
| Insertion.InsertShape | src/snack.c:110-202 | for all text: one line more per newline, the end line is k + newlines, the lines before and after keep value and place, and every line written is consistent and dirty |
| Insertion.AsciiInsertable | src/snack.c:110-202 | ASCII text can be inserted at any byte offset of an ASCII line |
| Insertion.InsertAsciiLines | src/snack.c:110-202 | inserting ASCII text with m newlines adds m lines, and every line written is a dirty ASCII line |
| Insertion.InsertAsciiSingle | src/snack.c:110-202 | without a newline, line A becomes A[0:o] + T + A[o:] and the end position is o + \|T\| on the same line |
| Insertion.InsertAsciiFirst | src/snack.c:129-177 | with newlines, the insertion line is A[0:o] + the first segment, and each middle segment is a line of its own |
| Insertion.InsertAsciiLast | src/snack.c:179-201 | with newlines, the last line is the last segment + A[o:], and the end position is the end of that segment |
| Insertion.InsertAscii | src/snack.c:110-202 | where every piece of the text and of the split line lands, for ASCII text with any number of newlines |
| Insertion.InsertSplitBuckets | src/snack.c:157-163 | with newlines, the last line keeps max(1, BUCKETS(last segment)) buckets, whatever rest is appended |
| Insertion.InsertSingleBuckets | src/snack.c:131-140 | without a newline the line gets BUCKETS(\|A\| + \|T\|) buckets when a rest was detached, and the larger of that and the old count otherwise |
| Insertion.InsertWithinLine | src/snack.c:110-202 | a newline-free ASCII insertion changes only its own line: content, both lengths, buckets, dirty flag and end position |
| Insertion.TailOutgrowsSplitLine | src/snack.c:181-192 | when the rest plus the last segment exceeds the new last line's storage, the final append leaves a line longer than its buckets |
| Insertion.TailOutgrowsExample | src/snack.c:181-192 | a newline at offset 0 of 65 'a's moves 65 bytes to a new line of one 64-byte bucket |
| Insertion.SegmentsOfNewline | src/snack.c:129-130 | a lone newline is two empty segments |
| Insertion.InsertNewlineAtCount | src/snack.c:541-544 | a newline at the line's character count keeps its bytes, marks it dirty, raises its storage to BUCKETS(length) if needed, and adds a dirty empty line holding the end position |
| Insertion.TwoLineExample | src/snack.c:110-202 | "ab\ncd" into a single empty line gives the lines "ab" and "cd" with the end position (line 1, offset 2) |
| Insertion.MultiByteMiddleInsert | src/snack.c:143-154 | inserting a two-byte character at character 2 of "abcd" overwrites its second byte with the rest; the line ends up malformed (ERR), and the end offset is 3 |
| Buffers.Line.constructor | src/snack.c:158-163 | a new line holds nothing in one bucket and is unlinked |
| Buffers.Line.WriteSegment | src/snack.c:131-155 | writing a segment into a line record is Insertion.WriteSegment on its value |
| Buffers.Line.AppendTail | src/snack.c:180-195 | the final append on a line record is Insertion.AppendTail on its value |
| Buffers.Line.LinkAfter | src/snack.c:164-168 | the new line goes between this line and its old next line, in both directions |
| Buffers.Position.constructor | src/snack.c:120-122 | a position is its line and offset |
| Buffers.VisualLengths | src/snack.h:52 | the cached visual length of every line, in order |
| Buffers.SpliceLinked | src/snack.c:164-168 | linking a line in after another keeps the list doubly linked |
| Buffers.SpliceKeeps | src/snack.c:157-168 | splicing a new consistent line keeps each line once and consistent, and adds its value at the right place |
| Buffers.LinkIn | src/snack.c:164-168 | the links of the splice hold, and no line record changes |
| Buffers.NewLineAfter | src/snack.c:157-168 | a fresh empty line is linked in after the current one; the list stays valid and the values gain EmptyLine there |
| Buffers.Buffer.constructor | src/snack.c:327-343 | one dirty empty line that is first and last, with the cursor at its start and offset_prev 0 |
| Buffers.Buffer.SplitAfter | src/snack.c:157-171 | the new line follows the current one, and the cursor and last_line indices shift past it |
| Buffers.Buffer.SplitLines | src/snack.c:129-177 | the byte loop over the linked list reaches the state of the segment loop, with only fresh lines added |
| Buffers.Buffer.AppendRest | src/snack.c:179-196 | the final append leaves the values Insertion.Finish gives |
| Buffers.Buffer.Insert | src/snack.c:110-202 | internal_insert on the heap: the records become Insertion.Insert's lines, the returned position is its end position, lines before and after the insertion stay the same objects, and every added line is fresh |
| Buffers.Buffer.EndPosition | src/snack.c:197-201 | the returned position is the last line written at p_offset |
| Buffers.Buffer.InsertAtCursor | src/snack.c:85 | the cursor becomes the end position of the insertion; offset_prev stays, and last_line stays the same object |
| Buffers.Buffer.LoadedAt | src/snack.c:228-230 | last_line becomes the last position's line and the cursor goes to the first line at offset 0; the lines are unchanged |
| Buffers.Buffer.LastMoves | src/snack.c:110-202 | internal_insert does not touch last_line, so its index shifts by the lines added when it was below the insertion line |
| Buffers.Buffer.MoveNextLine | src/snack.c:448-464 | action_move_nextline on the list is Motion.NextLine, and no line changes |
| Buffers.Buffer.MovePrevLine | src/snack.c:466-482 | action_move_prevline on the list is Motion.PrevLine, and no line changes |
| Buffers.Buffer.MoveNextChar | src/snack.c:484-492 | action_move_nextchar is Motion.NextChar, and no line changes |
| Buffers.Buffer.MovePrevChar | src/snack.c:494-501 | action_move_prevchar is Motion.PrevChar, and no line changes |
| Buffers.Buffer.MoveBof | src/snack.c:503-515 | action_move_bof is Motion.Bof, and no line changes |
| Buffers.Buffer.MoveEof | src/snack.c:517-529 | action_move_eof is Motion.Eof, and no line changes |
| Buffers.Buffer.MoveBol | src/snack.c:531-534 | action_move_bol is Motion.Bol, and no line changes |
| Buffers.Buffer.MoveEol | src/snack.c:536-539 | action_move_eol is Motion.Eol, and no line changes |
| Editor.Moved | src/snack.c:448-539 | a cursor action keeps the view well formed over the same lines and last_line |
| Editor.TypedCoherent | src/snack.c:84-86 | inserting at the cursor keeps every line consistent and the cursor and last_line on lines that exist |
| Editor.LineInserted | src/snack.c:541-554 | action_insert_line (end of line, newline, start of line) leaves a coherent editor |
| Editor.Performed | src/snack.c:433-539 | every bound action leaves a coherent editor |
| Editor.Commanded | src/snack.c:44-61 | internal_command leaves a coherent editor |
| Editor.InsertsKeyIff | src/snack.c:80-86 | a keystroke is inserted exactly when the mode is Insert and the keystroke is neither empty nor ESC |
| Editor.InsertsKeyRunsNothing | src/snack.c:52-60 | an inserted keystroke matched no entry, so the command changed nothing first |
| Editor.Handled | src/snack.c:80-87 | one pass of the loop leaves a coherent editor |
| Editor.HandledCommand | src/snack.c:80-81 | a keystroke that is not inserted is only a command |
| Editor.HandledKeepsLines | src/snack.c:80-87 | only an inserted keystroke changes the lines or sets Status_dirty |
| Editor.CommandedKeepsLines | src/snack.c:433-539 | no bound action changes the lines or Status_dirty |
| Editor.QuitIff | src/snack.c:433-436 | Status_running is cleared exactly by "q", or by an empty keystroke, in Normal mode |
| Editor.ModeSwitches | src/config.h:99-100 | ESC in Insert mode and "i" in Normal mode switch the mode and change nothing else; neither is inserted |
| Editor.RunPass | src/snack.c:67-87 | one pass of the loop skips an ERR read or handles the keystroke and drops its reads |
| Editor.AsciiKeyReady | src/snack.c:85 | in an ASCII state every ASCII keystroke meets internal_insert's demands |
| Editor.TypedAscii | src/snack.c:84-86 | inserting one ASCII byte keeps every line ASCII and the cursor within its line |
| Editor.HandledAscii | src/snack.c:80-87 | every ASCII keystroke keeps the editor in an ASCII state |
| Editor.CommandedAscii | src/snack.c:44-61 | a command keeps the editor in an ASCII state |
| Editor.PerformedAscii | src/snack.c:433-539 | every bound action keeps the editor in an ASCII state |
| Editor.MovedInRange | src/snack.c:448-539 | every cursor action keeps the cursor within its line |
| Editor.AsciiFeasible | src/snack.c:63-88 | over ASCII reads every pass can go ahead and the editor stays in an ASCII state |
| Editor.KeystrokeIsAscii | src/utf8.c:41-58 | an ASCII read gives an ASCII keystroke |
| Editor.RunStep | src/snack.c:67-87 | over ASCII reads, a pass consumes one read and handles its keystroke |
| Editor.HandledTyped | src/snack.c:80-86 | in Insert mode a non-NUL ASCII byte other than ESC is inserted at the cursor |
| Editor.TypedStep | src/snack.c:84-86 | one plain byte goes into the cursor's line at the cursor, the cursor moves one on and no other line changes |
| Editor.TypingInserts | src/snack.c:63-88 | typing plain ASCII in Insert mode makes the cursor's line A[0:o] + typed + A[o:] and moves the cursor past it; no other line changes, and the editor stays in Insert mode and running |
| Editor.NormalModeKeepsLines | src/config.h:98-111 | in Normal mode no keystroke changes the lines |
| Editor.InitialAscii | src/snack.c:327-345 | the editor after internal_setup is in an ASCII state |
| Editor.Editor.constructor | src/snack.c:327-345 | internal_setup gives Normal mode, running, one dirty empty line and the cursor at its start |
| Editor.Editor.ActionQuit | src/snack.c:433-436 | clears Status_running and returns true |
| Editor.Editor.ActionModeInsert | src/snack.c:438-441 | enters Insert mode and returns false |
| Editor.Editor.ActionModeNormal | src/snack.c:443-446 | enters Normal mode and returns false |
| Editor.Editor.ActionMoveLine | src/snack.c:448-482 | the line-changing cursor actions on the heap are their Motion functions, and they return true |
| Editor.Editor.ActionMoveChar | src/snack.c:484-501 | the in-line cursor actions on the heap are their Motion functions, and they return true |
| Editor.Editor.TypeText | src/snack.c:84-86 | the insertion at the cursor and Status_dirty, as Typed states |
| Editor.Editor.ActionInsertLine | src/snack.c:541-554 | action_insert_line on the heap is LineInserted, and it returns true |
| Editor.Editor.RunAction | src/snack.c:55 | the bound action runs as Performed states and returns what Returns says |
| Editor.Editor.Command | src/snack.c:44-61 | the table scan runs the first matching action and returns its result, or true; the editor becomes Commanded |
| Editor.Editor.HandleKey | src/snack.c:80-87 | one pass with a keystroke in c, as Handled states |
| Editor.Editor.EditStep | src/snack.c:67-87 | one pass reads a keystroke and handles it, and the rest of the run is unchanged |
| Editor.Editor.Edit | src/snack.c:63-88 | internal_edit over the reads leaves the editor in the state Run gives |

## Left out

- Painting (`internal_paint`, `wclrtobot`, the cursor shapes, the title and
  the windows), terminal setup (`initscr`, `internal_term`), `main` and
  `internal_exit`: these are curses output and process control.
- File I/O in `internal_loadfile`: `open`, `read`, `close` and the
  chunk-by-chunk inserts. Each chunk's terminator is `file_buffer[BUFSIZ]`,
  not `file_buffer[bytes_read]`, so a short read leaves garbage after the
  data. Only the assignments that end the function are modelled
  (`Buffers.Buffer.LoadedAt`). The file name is not modelled.
- `safe_calloc`/`safe_realloc` failure: they exit the program.
- The `ch >= KEY_MIN` test (src/snack.c:77-78): `ch` is `c[0]`, a `char`,
  so it is never true.
- The void copies of the actions in src/config.h:4-93: they make the same
  assignments as the bool actions and are not what the table calls.
- `Selection`: it is built by `internal_command` but no action reads it.
- Utf8.Wgetch: `char` is taken as signed and 8 bits wide, so a read
  compares equal to ERR exactly when its low byte is 0xFF. `wgetch` itself
  is a sequence of read results, and exhausted reads come back as ERR.
- Buffers.Line.WriteSegment: the content is the first `length` bytes of the
  storage and the storage past it is taken as NUL. `realloc` leaves those
  bytes undefined in the source, and a line whose NUL terminator is missing
  would make `utf8_characters` read past its content.
- Buffers.Line.AppendTail: the size of the real allocation is not tracked
  apart from `buckets`. The final append reallocates only when
  BUCKETS(length + rest) is below the current bucket count. When it is
  above, there is no realloc, and the memcpy at src/snack.c:189 writes past
  the allocation. The model keeps those bytes as content, with a length
  over `buckets * LINSIZ` (`Insertion.TailOutgrowsSplitLine`). When it is
  below, the realloc at src/snack.c:185 leaves exactly length + 1 bytes,
  while `buckets` stands for BUCKETS(length) * LINSIZ + 1. A later segment
  write into that line that needs no growth (src/snack.c:136) can then
  write past the real allocation. The model treats the storage as
  `buckets * LINSIZ` bytes there.
- Insertion.Insertable: `internal_insert` is only modelled where it stays
  within the line. The offset must lie in the line's bytes and the text
  must be NUL-free before `size`. When a rest was detached, the last line's
  visual length must not be ERR, since the source would copy to byte
  (unsigned) -1.
- Insertion.InsertAscii: the content equations are stated for ASCII text
  and ASCII lines. Elsewhere the character offsets used as byte indices
  make the content depend on the bytes; MultiByteMiddleInsert shows one
  case.
- Editor.Editor.Edit: the loop also ends when the reads run out. The
  source would go on calling `wgetch`, which blocks for input, so a run
  over a finite input is the start of a session.
- Editor.Editor.TypeText: Status_dirty is set before the insertion rather
  than after. The two touch disjoint state.
- Buffers.Buffer.Insert: `end_p` is allocated at the end rather than at the
  start. Nothing reads it before then.
- Integer widths: the `unsigned int` and `int` counters of
  `internal_insert` and `utf8_characters` are unbounded integers. Line
  lengths large enough to wrap them are not modelled.
- Line's `dirty` flag on the line `internal_insert` splits (set twice,
  src/snack.c:155, 159) is modelled once.
