# Sudoku editor core in Dafny

This project models the logic at the heart of a small Sudoku editor written
in Python with Qt. It leaves out the painting and the event plumbing and
keeps the parts that decide what the board holds:

- **Board** (module `Grid`). The board is a 9×9 grid of cells, indexed
  `b[col][row]` as the widget's `data[i][j]` is. A cell is one of four
  shapes:
  - `Empty`, the `{}` dictionary;
  - `Given(v)`, a clue;
  - `Entered(v)`, a digit typed by the player;
  - `Candidates(marks)`, the pencil "centermarks".

  A value is stored as the offset of its one-character string from `'0'`,
  so comparing values is comparing the stored strings. The module also
  holds the hard-coded table of the nine 3×3 regions.
- **Editing keys** (module `Edits`). A digit key writes an entered value
  unless the cell is a given. Backspace or Delete clears the cell.
  Ctrl+digit toggles a pencil mark, inserting it at its `bisect` position
  so the list stays sorted.
- **Conflict scan** (module `Conflicts`). `resetDoubles`/`checkDoubles` do
  three things:
  - flag every value cell that shares its value with another value cell of
    its column, row or box;
  - give each candidate cell the list of its marks that some value cell of
    its column, row or box already holds;
  - list such a mark once per family that holds it.
- **Set-bit reader** (module `Bits`). `get_set_bits` turns an integer into
  the 1-based positions of its set bits.
- **Import** (module `Codec`). The import dialog accepts text of length 81
  or 162:
  - An 81-character text is one character per cell. `'0'` and `'.'` are
    empty; any other character becomes a given.
  - A 162-character text is 81 two-character base-32 tokens. Bit 0 of a
    token is the clue bit. The remaining bits are a digit when exactly one
    is set and a pencil-mark set otherwise.
  - Text position `p` is cell `(p % 9, p / 9)`.

  The module also holds a corrected packed encoder, with its round-trip
  proofs. It writes each cell as the token the importer reads back as that
  cell, within these limits:
  - It refuses a board holding a one-mark list, or a digit or mark outside
    1..9, because the format has no token for them.
  - Importing its text gives back every other board, except that an empty
    cell comes back as the empty mark list.
  - Exporting an imported text does not always reproduce that text. Digits
    come out lower-case, and a mark list loses its clue bit. Importing the
    new text still gives the same board.
- **Export as written** (module `LegacyExport`). `make_cells_reverse` writes
  each cell as `f"{n:02x}"`, with `n = value << 1 | given` or the sum of
  `1 << mark`. It visits the cells first-index-outermost. The module models
  this exactly and proves by concrete boards that its output does not
  import back (see Findings).

Behaviours of the editor a reader may not expect, which the model keeps:

- A digit key on a given does nothing.
- Ctrl+digit on an entered value replaces the value with a one-mark list.
- An 81-character import turns any character other than `'0'` or `'.'`
  into a given; it does not reject it.
- The conflicting marks of a cell form a list with one copy per family
  (column, row, box) that holds the mark. They are not a set.

## Model

| member | source | states |
|---|---|---|
| `Grid.RegionsFollowFormula` | draw_widget.py:34-80 | the region table has nine regions of nine cells, and entry m of region k is the cell (3·(k div 3) + m div 3, 3·(k mod 3) + m mod 3) |
| `Grid.RegionEntryInverse` | draw_widget.py:418 | the region layout and `BoxOf` are inverse: an entry lands on cell (c, r) exactly when k is the cell's box and m its place within the box |
| `Grid.RegionsPartitionBoard` | draw_widget.py:34-80 | every cell of the board occurs in the region table exactly once, in the region the box formula of the conflict scan names |
| `Grid.BoxOfFormula` | draw_widget.py:418 | the box number `BoxOf` used throughout the model is the editor's region number `(i // 3) * 3 + (j // 3)` |
| `Grid.ScanPos` | draw_widget.py:389-390 | step k of the nested `i`, `j` loops visits a valid cell whose scan index is k |
| `Grid.Put` | draw_widget.py:125 | writing a cell changes that cell and leaves every other cell as it was |
| `Grid.PutTwice` | draw_widget.py:125-127 | of two writes to one cell the second wins |
| `Edits.EnterDigit` | draw_widget.py:123-125 | a digit key on a given leaves the board unchanged; on any other cell it stores the digit as a non-given value; no other cell and no given changes |
| `Edits.Clear` | draw_widget.py:126-127 | Backspace or Delete empties the cell, given or not, and touches nothing else |
| `Edits.ClearAbsorbsEdits` | draw_widget.py:123-127 | clearing after a digit entry or a mark toggle gives the same board as clearing straight away |
| `Edits.EnterAfterClear` | draw_widget.py:123-127 | once cleared, a cell accepts a digit; a given refuses it |
| `Edits.BisectRight` | draw_widget.py:193 | on a non-decreasing list the bisect position splits it into entries at most x before and entries above x after |
| `Edits.InsertAt` | draw_widget.py:194 | inserting places x at the index and adds exactly one x to the list's contents |
| `Edits.RemoveFirst` | draw_widget.py:190-191 | `list.remove` takes away exactly one occurrence of x |
| `Edits.RemoveFirstAscending` | draw_widget.py:190-191 | removing a mark from a strictly ascending list keeps it strictly ascending and leaves every other mark |
| `Edits.InsertAscending` | draw_widget.py:192-194 | inserting an absent mark at its bisect position keeps the list strictly ascending and adds exactly that mark |
| `Edits.AscendingUnique` | draw_widget.py:192-194 | two strictly ascending lists with the same members are equal, so the toggled list is the sorted list of its members |
| `Edits.ToggleList` | draw_widget.py:189-196 | toggling removes one copy of a present mark or adds one copy of an absent mark |
| `Edits.ToggleKeepsAscending` | draw_widget.py:189-194 | toggling keeps a mark list strictly ascending, and m ends up present exactly when it was absent |
| `Edits.ToggleTwice` | draw_widget.py:189-194 | toggling the same mark twice restores a well-formed mark list |
| `Edits.ToggleMark` | draw_widget.py:185-197 | Ctrl+digit leaves a given alone; any other cell becomes a mark list whose contents are the old marks with m toggled; no other cell and no given changes |
| `Edits.ToggleMarkTwice` | draw_widget.py:185-197 | on a cell that already holds a sorted mark list, two Ctrl+digit presses of one digit restore the board |
| `Conflicts.Probe` | draw_widget.py:396-426 | one dictionary probe and update for one family keeps the seen-map and the flagged set exact for the prefix of the scan that includes the current cell |
| `Conflicts.SeenHit` | draw_widget.py:400-403 | a value already in the dictionary leaves the dictionary exact for the longer prefix |
| `Conflicts.SeenMiss` | draw_widget.py:404-405 | a new value recorded with its cell keeps the dictionary exact for the longer prefix |
| `Conflicts.FlagsHit` | draw_widget.py:400-403 | flagging the current cell and the recorded holder makes the flagged set exactly the clashing cells of the longer prefix |
| `Conflicts.FlagsMiss` | draw_widget.py:404-405 | a value with no earlier holder flags nothing new and the set stays exact |
| `Conflicts.TrackedSkip` | draw_widget.py:393-394 | a cell without a value leaves dictionaries and flags exact |
| `Conflicts.FindDoubles` | draw_widget.py:389-426 | after the first pass each family's dictionary holds exactly the (group, value) pairs present, and each flagged set is exactly the cells that clash in that family |
| `Conflicts.SeenComplete` | draw_widget.py:398-426 | after the pass, a (group, value) key is in a dictionary exactly when some value cell of that group holds the value |
| `Conflicts.FlagsComplete` | draw_widget.py:398-426 | after the pass, a cell is flagged in a family exactly when another value cell of its group holds its value |
| `Conflicts.DoublesComplete` | draw_widget.py:398-426 | the union of the three flagged sets is exactly the set of duplicated value cells |
| `Conflicts.EchoesFromSeen` | draw_widget.py:436-445 | the three dictionary lookups for one mark append one copy per family whose group holds that value |
| `Conflicts.MarkConflictsAt` | draw_widget.py:429-445 | the second pass gives a cell the list of its marks, each repeated once per family that holds it, in mark order; a cell without marks gets none |
| `Conflicts.Scan` | draw_widget.py:373-445 | the report flags exactly the duplicated value cells, and gives every cell exactly its conflicting-mark list |
| `Conflicts.DoublesHoldValues` | draw_widget.py:393-394 | only cells holding a value are ever flagged as doubles |
| `Conflicts.EchoesCount` | draw_widget.py:435-445 | the copies appended for one mark are that mark only, as many as the families that hold it |
| `Conflicts.FlaggedMarksMember` | draw_widget.py:435-445 | a mark appears in the conflict list exactly when it is in the cell's marks and some family of the cell holds it |
| `Conflicts.FlaggedMarksCount` | draw_widget.py:435-445 | each mark occurs in the conflict list as often as it occurs among the marks times the number of families that hold it |
| `Conflicts.EchoCountPositive` | draw_widget.py:437-445 | a mark is echoed at least once exactly when some family of the cell holds it |
| `Conflicts.ConflictingMarkIff` | draw_widget.py:429-445 | for a candidate cell, m is a conflicting mark exactly when m is one of its marks and a value cell in its column, row or box holds m |
| `Conflicts.GivenEnteredAlike` | draw_widget.py:393-396 | the scan reads only the value, so turning a given into an entered cell of the same value changes neither any double flag nor any mark list |
| `Conflicts.LonePair` | draw_widget.py:398-426 | on a board whose only values are two equal ones in one group, exactly those two cells are doubles |
| `Bits.GetSetBits` | input_output_dialogs.py:76-84 | the loop returns strictly ascending positions, all at least 1, whose powers sum back to n, one per set bit, and none for 0 |
| `Bits.SetBitsFrom` | input_output_dialogs.py:76-84 | the positions read out are as many as the set bits and all at least the starting position; there are none exactly for 0 |
| `Bits.SetBitsAscending` | input_output_dialogs.py:79-83 | positions come out strictly ascending |
| `Bits.SetBitsBound` | input_output_dialogs.py:79-83 | a number below 2^w yields positions within the first w |
| `Bits.MaskOfSetBits` | input_output_dialogs.py:76-84 | summing the powers of the positions read out gives the number back |
| `Bits.SetBitsOfMask` | input_output_dialogs.py:76-84 | a strictly ascending position list is read back unchanged from its mask |
| `Bits.MaskBound` | input_output_dialogs.py:76-84 | a strictly ascending position list within w positions has a mask below 2^w |
| `Bits.OneHot` | input_output_dialogs.py:63-65 | exactly one bit is set exactly when the number is a power of two, and the position read out is that exponent plus one |
| `Codec.TextPos` | input_output_dialogs.py:51-52 | text position p names a valid cell whose text index is p |
| `Codec.TextIndexInverse` | input_output_dialogs.py:61-62 | every cell is named by exactly one text position |
| `Codec.PlainCell` | input_output_dialogs.py:49-53 | `'0'` and `'.'` give an empty cell; any other character gives a given holding that character |
| `Codec.DecodePlain` | input_output_dialogs.py:46-53 | the 81-character import puts character p's cell at column p mod 9, row p div 9 |
| `Codec.EncodePlain` | input_output_dialogs.py:46-53 | a board of empties and givens 1..9 is written as 81 characters that the plain import reads cell for cell |
| `Codec.PlainRoundTrip` | input_output_dialogs.py:37-53 | importing the plain text of such a board gives the board back |
| `Codec.PlainTextRoundTrip` | input_output_dialogs.py:46-53 | a text of digits 1..9 and dots is reproduced by import and re-export |
| `Codec.DigitChar` | input_output_dialogs.py:58 | each digit value below 32 has a lower-case base-32 character that reads back as that value |
| `Codec.DigitCharValue` | input_output_dialogs.py:58 | a lower-case base-32 character is the character of its own value |
| `Codec.TokenValue` | input_output_dialogs.py:58 | a two-character base-32 token reads as a number below 1024 |
| `Codec.Token` | input_output_dialogs.py:58 | every number below 1024 has a two-character base-32 token that reads back as it |
| `Codec.PackedCell` | input_output_dialogs.py:59-73 | a packed token never decodes to an empty cell |
| `Codec.PackedCellMeaning` | input_output_dialogs.py:59-73 | a decoded given d comes from 2^d, an entered d from 2^d + 1, and a mark list from the ascending positions of n >> 1, never a single mark |
| `Codec.PackedValueIff` | input_output_dialogs.py:59-69 | a token decodes to Given(d) exactly when it is 2^d, and to Entered(d) exactly when it is 2^d + 1 |
| `Codec.DecodePacked` | input_output_dialogs.py:55-73 | token p's cell lands at column p mod 9, row p div 9 |
| `Codec.Decode` | input_output_dialogs.py:37-74 | lengths other than 81 and 162 are refused with the length; 81 always succeeds as the plain decode; 162 succeeds exactly when every token is base 32 and then holds each token's cell |
| `Codec.DecodedToken` | input_output_dialogs.py:56-73 | a successful packed import has a valid token at every position and holds that token's cell |
| `Codec.CellCode` | input_output_dialogs.py:105-120 | every encodable cell has a code below 1024, which fits two base-32 characters |
| `Codec.MarksRoundTrip` | input_output_dialogs.py:70-73 | a sorted mark list of other than one mark, encoded as the sum of 2^k, decodes to itself |
| `Codec.CellRoundTrip` | input_output_dialogs.py:105-120 | the corrected code of an encodable cell decodes to the cell, an empty cell coming back as the empty mark list |
| `Codec.PackedEncodable` | input_output_dialogs.py:59-73 | every decoded cell is encodable, and its code is the token value, with the clue bit cleared for a mark list |
| `Codec.TokensLayout` | input_output_dialogs.py:105-120 | every token of the corrected export is valid base 32 and reads as the code of the cell the importer puts there |
| `Codec.Encode` | input_output_dialogs.py:105-120 | the corrected export succeeds exactly when every cell is encodable, and then writes 162 characters with each cell's code at its import position |
| `Codec.EncodeRoundTrip` | input_output_dialogs.py:44-120 | importing the corrected export of an encodable board gives every cell back, an empty cell as the empty mark list |
| `Codec.DecodedReencodes` | input_output_dialogs.py:44-120 | re-exporting and re-importing a successfully imported packed text reproduces the imported board |
| `LegacyExport.LegacyCode` | input_output_dialogs.py:109-120 | the exporter's integer exists exactly when `int` accepts every value and no mark is negative (a negative shift raises); for a value cell its low bit is the given flag and the rest is the value |
| `LegacyExport.HexDigitsReadBack` | input_output_dialogs.py:114 | the hexadecimal digits of n read back in base 16 as n |
| `LegacyExport.Hex2ReadBack` | input_output_dialogs.py:114 | `f"{n:02x}"` reads back in base 16 as n |
| `LegacyExport.Hex2Width` | input_output_dialogs.py:114 | `f"{n:02x}"` is two characters for n below 256 and at least three above |
| `LegacyExport.HexTextNarrow` | input_output_dialogs.py:105-120 | codes below 256 give a text of two characters per cell, pair k holding code k |
| `LegacyExport.HexTextOneWide` | input_output_dialogs.py:105-120 | a single code of 256 or more lengthens the text beyond two characters per cell |
| `LegacyExport.ImportHexText` | input_output_dialogs.py:56-62 | the importer reads each hexadecimal pair as base 32 and puts the misread value at text position k |
| `LegacyExport.ExportAsWritten` | input_output_dialogs.py:105-120 | the export raises exactly when some value is not a decimal digit or some mark is negative |
| `LegacyExport.ExportReadBack` | input_output_dialogs.py:105-120 | when every cell's code is below 256, the export is 162 characters, and the pair at cell p's step of the first-index-outermost scan reads back in base 16 as the code computed for p |
| `LegacyExport.ExportLength` | input_output_dialogs.py:105-120 | a successful export is at least 162 characters long |
| `LegacyExport.StepOf` | input_output_dialogs.py:51-52 | the exporter writes cell p at the step the importer assigns to the transpose of p |
| `LegacyExport.LoneTransposed` | input_output_dialogs.py:44-120 | a board with one cell exports and imports back with that cell's misread code at the transposed position |
| `LegacyExport.LoneElsewhere` | input_output_dialogs.py:44-120 | every other cell of that board imports back as the empty mark list |
| `LegacyExport.GivenComesBackEntered` | input_output_dialogs.py:59-69 | a lone given 1 is exported and imported back as an entered 1 |
| `LegacyExport.DigitComesBackAsMarks` | input_output_dialogs.py:63-73 | a lone entered 3 comes back as the marks 1 and 2 |
| `LegacyExport.MarksComeBackShifted` | input_output_dialogs.py:58 | the lone marks 1 and 4 come back as the marks 1 and 5 |
| `LegacyExport.WideMarksRejected` | input_output_dialogs.py:37-41 | the lone marks 1 and 9 export to 163 characters, which the import refuses |
| `LegacyExport.CellComesBackTransposed` | input_output_dialogs.py:51-52 | the lone marks 1 and 2 off the diagonal come back at the transposed cell, leaving their own cell empty |

## Left out

- Painting, mouse selection, arrow-key and Tab navigation, Escape, F11 and window geometry: presentation only; they do not change the board.
- `keyToNum`: a digit key is modelled as its digit value directly. The modifier dispatch of `keyPressEvent` and `checkModified` is modelled only as the choice between `EnterDigit`, `Clear` and `ToggleMark`.
- The Ctrl+C / Ctrl+V clipboard: it is not part of this model.
- The solver (`sudokuSolver.py`): it is not part of this model.
- The `if self.parent()` guard of `submit_text` and the message box: with no parent nothing happens, which is a UI concern. The refused length is returned as `InvalidLength(n)` instead of being shown.
- The result is returned instead of being handed to `recieve_data`, and the exporter's text is returned instead of printed.
- Python `int(token, 32)` also accepts a sign, and surrounding whitespace. The model accepts exactly two base-32 digits. `re.findall('.{1,2}')` also skips newlines, which the model does not.
- Digit entry with key `0`, and marks outside 1..9, are kept as the values they are. The packed encoder simply refuses them.
- Pencil marks are strings in the editor and integers after a packed import; the model uses integers for both. As a result, the `TypeError` the exporter raises on string marks and the mixed str/int comparisons of `bisect` are not modelled. `LegacyExport.LegacyCode` treats marks as integers and fails only on negative ones. The unification also affects the conflict scan. The editor's value dictionaries are keyed by strings, so a mark that came from a packed import is an integer that `centermark in …` never finds, and the editor never lists it as conflicting; `Conflicts.Scan` does list it.
- Characters outside ASCII that Python's `int` treats as digits are treated as non-digits.
- The conflict flags are stored in the cells by the editor. The model returns them as a separate `Report` (a set of flagged cells and a mark list per cell), because they never travel through the codec. `resetDoubles` is therefore the fresh, empty report.
- `Codec.Decode`: a token error carries no position (`InvalidToken`). The editor raises `ValueError` from `int` without one either.
- `Codec.Encode`: a one-mark list cannot be exported, because the importer reads a single set bit as a digit (input_output_dialogs.py:63), although the first Ctrl+digit on an empty cell creates exactly such a list (draw_widget.py:196). Such a board is refused with `Unencodable`.
- `Codec.EncodePlain`: the editor has no plain exporter; this is added only as the inverse that the plain decoder's round-trip lemmas use.

## Findings

| source | as written | input that shows it | evidently intended | confidence | as-written member | corrected member |
|---|---|---|---|---|---|---|
| input_output_dialogs.py:59-69, 113 | the importer treats a cleared clue bit as a given, while the exporter sets the bit for a given | a board whose only cell is Given(1) | a given exported and imported stays a given | high, not executed | `LegacyExport.GivenComesBackEntered` | `Codec.CellRoundTrip` |
| input_output_dialogs.py:63-69, 113 | the exporter writes the value itself shifted left by one, while the importer expects a one-hot bit for a digit | a board whose only cell is Entered(3) | a digit comes back as the same digit | high, not executed | `LegacyExport.DigitComesBackAsMarks` | `Codec.CellRoundTrip` |
| input_output_dialogs.py:58, 114 | tokens are written in hexadecimal and read in base 32 | a board whose only cell holds the marks 1 and 4 | marks come back unchanged | high, not executed | `LegacyExport.MarksComeBackShifted` | `Codec.EncodeRoundTrip` |
| input_output_dialogs.py:37, 114, 118 | `{n:02x}` widens to three characters for codes of 256 or more (marks including 8 or 9) | a board whose only cell holds the marks 1 and 9 | every export is exactly 162 characters | high, not executed | `LegacyExport.WideMarksRejected` | `Codec.Encode` |
| input_output_dialogs.py:51-52, 107-109 | the exporter visits the first index outermost, while the importer sends position p to (p % 9, p // 9) | the marks 1 and 2 alone at column 0, row 1 | each cell comes back at its own position | high, not executed | `LegacyExport.CellComesBackTransposed` | `Codec.TokensLayout` |
