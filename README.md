# JMaze `.mze` codec and puzzle state, in Dafny

JMaze is a sliding-tile maze puzzle. It has sixteen movable pieces
(`Content`). They start on sixteen tiles and the player moves them onto a
4×4 grid of cells (`Cell`). Each piece shows a few line segments and can be
turned a quarter at a time. The board is read from and saved to `.mze`
files, whose first four bytes say what kind of file it is:

- `CA FE BE EF` marks a maze definition. After the magic comes the piece
  count N. Each piece then has a word the reader skips, its id, its segment
  count L and 4·L float coordinates.
- `CA FE DE ED` marks a saved game. After the magic comes N. Each piece then
  has the id of the container it sits in, its quarter-turn count, L and
  4·L float coordinates.

Every number is a big-endian 4-byte int or float.

The project has one module per source class:

- `Conversions` models the byte conversions and `convertToHex`.
- `MazeFormat` is the file layout itself. It has readers and writers over
  the file's 32-bit words, and a dispatch on the magic.
- `FormatLaws` holds the laws relating readers and writers: round trips,
  recognition by magic, refusal of truncated and negative-count saves.
- `FileHandler` is `RawFileHandler`, as a class. `parseBytes` and `loadFile`
  are loops that write the handler's arrays and line list. Each loop is
  proved against the readers. `saveFile` is a loop that writes the bytes,
  proved against the writers.
- `Board` holds `Cell`, `Content` and the static counters that number them.
- `Clock` holds the game clock.
- `WinCheck` holds the win check.
- `FileOptions` holds `loadOption` and `arrangePieces`.
- `Window` holds the few `GameWindow` statics those methods set.

Java statics become objects passed to the methods that use them:
`CellCounter`, `ContentCounter`, `Clock`, `WindowState` and `HandlerStatics`.

## Model

| member | source | states |
|---|---|---|
| Conversions.Wrap32 | game/src/Cell.java:55-56 | Java int addition wraps: the result is a 32-bit int congruent to the exact sum, and equal to it when it fits |
| Conversions.IntRoundTrip | game/src/RawFileHandler.java:342-380 | convertToInt(convertToByteArray(int v)) == v for every int |
| Conversions.IntBytesRoundTrip | game/src/RawFileHandler.java:342-380 | every 4-byte array is the encoding of the int it decodes to |
| Conversions.LongRoundTrip | game/src/RawFileHandler.java:351-358 | an 8-byte big-endian long encoding reads back as the same long |
| Conversions.LongBytesRoundTrip | game/src/RawFileHandler.java:351-358 | every 8-byte array is the encoding of the long it reads as |
| Conversions.FloatRoundTrip | game/src/RawFileHandler.java:360-387 | convertToFloat(convertToByteArray(float f)) == f, by raw bit pattern |
| Conversions.FloatBytesRoundTrip | game/src/RawFileHandler.java:360-387 | every 4-byte array is the encoding of the float it decodes to |
| Conversions.IntToBytesExamples | game/src/RawFileHandler.java:342-349 | 16 encodes as 00 00 00 10 and -1 as FF FF FF FF (two's complement, big-endian) |
| Conversions.HexOf | game/src/RawFileHandler.java:399-412 | the hex rendering has two characters per byte |
| Conversions.HexOfAt | game/src/RawFileHandler.java:404-409 | character 2m is the digit of byte m's high nibble, character 2m+1 that of its low nibble |
| Conversions.HexOfInjective | game/src/RawFileHandler.java:399-412 | two byte arrays of one length with the same hex rendering are equal, so the string comparison in parseBytes tests the bytes |
| Conversions.ConvertToHex | game/src/RawFileHandler.java:399-412 | the loop fills the char array with exactly HexOf of the input |
| MazeFormat.Words | game/src/RawFileHandler.java:94-96 | a file of n bytes holds n/4 whole 4-byte reads, in order |
| MazeFormat.WordsAt | game/src/RawFileHandler.java:94-96 | read k covers bytes 4k..4k+3 |
| MazeFormat.MagicWord | game/src/RawFileHandler.java:94-96 | the 4-byte buffer the first read fills is always 4 bytes long, zero-padded for a short file |
| MazeFormat.DecodeSaveWords | game/src/RawFileHandler.java:273-281 | a decoded save has exactly as many pieces as the count word, and a count word above MAX_INT32 (a negative int) is NegativeSize |
| MazeFormat.DecodeDefinition | game/src/RawFileHandler.java:105-153 | a decoded definition comes from a file of at least 8 bytes and has at most MAX_INT32 pieces |
| MazeFormat.DefinitionCount | game/src/RawFileHandler.java:107-114 | a decoded definition has as many pieces as the int in bytes 4..7 |
| FormatLaws.SaveRoundTrip | game/src/RawFileHandler.java:181-331 | decoding saveFile's layout, followed by any bytes, gives back the saved pieces |
| FormatLaws.DefinitionRoundTrip | game/src/RawFileHandler.java:105-153 | a definition laid out as parseBytes reads it, whatever the skipped words hold, decodes to its pieces |
| FormatLaws.MagicHex | game/src/RawFileHandler.java:100-105 | the save magic renders as "CAFEDEED" and the definition magic as "CAFEBEEF" |
| FormatLaws.ClassifyByMagic | game/src/RawFileHandler.java:94-160 | a file is dispatched as a save iff it begins CA FE DE ED, as a definition iff it begins CA FE BE EF, and a file shorter than 4 bytes is neither |
| FormatLaws.SaveImageDecodes | game/src/RawFileHandler.java:181-244 | what saveFile writes is recognised as a save and decodes to the pieces written |
| FormatLaws.DefinitionImageDecodes | game/src/RawFileHandler.java:94-156 | a definition file is recognised and decoded as that definition |
| FormatLaws.DecodedSaveIsImage | game/src/RawFileHandler.java:257-331 | a save that decodes to `ps` begins with exactly SaveImage(ps): decoding loses nothing that saveFile writes |
| FormatLaws.SaveWordsPrefixFree | game/src/RawFileHandler.java:273-323 | no save layout is a proper prefix of another |
| FormatLaws.TruncatedSaveRefused | game/src/RawFileHandler.java:257-331 | a saved file cut anywhere before its end does not decode: the model's explicit `Truncated` outcome, where loadFile itself reads on with stale buffer bytes |
| FormatLaws.SaveWordsPrefixRefused | game/src/RawFileHandler.java:273-323 | a save's word stream cut before its end does not decode (the model's `Truncated` outcome, not a refusal loadFile makes) |
| FormatLaws.DecodedDefinitionIsImage | game/src/RawFileHandler.java:105-153 | a definition that decodes to `ps` begins with exactly DefinitionImage(ps, skipped), for the words the reader passed over |
| FormatLaws.DefinitionWordsConsumed | game/src/RawFileHandler.java:107-153 | a decoded definition, with the words skipped before each id, is exactly the word prefix it was read from |
| FormatLaws.SaveWordsConsumed | game/src/RawFileHandler.java:273-323 | a decoded save is exactly the word prefix it was read from |
| FormatLaws.NegativeSaveCountRefused | game/src/RawFileHandler.java:273-279 | a save whose count int is negative is refused with NegativeSize |
| FormatLaws.RotationStoredVerbatim | game/src/RawFileHandler.java:214-215 | any rotation int, in range or not, is saved and read back unchanged |
| FormatLaws.SpellAppend | game/src/RawFileHandler.java:181-244 | the bytes of two word streams written one after the other are the two byte strings joined |
| FileHandler.Expected | game/src/RawFileHandler.java:87-168 | parseBytes returns -1 exactly for an unknown magic, 0 exactly for a decoded maze file, and fails exactly for a broken one |
| FileHandler.RawFileHandler.constructor | game/src/RawFileHandler.java:62-75 | a missing file leaves the handler empty; an existing file's name is recorded and the file is parsed: a definition or a save fills the handler's arrays and line list, a file with neither magic leaves tileIndex 0, the arrays null and the line list empty |
| FileHandler.RawFileHandler.SetFileName | game/src/RawFileHandler.java:467-471 | only the file name changes |
| FileHandler.RawFileHandler.ParseBytes | game/src/RawFileHandler.java:87-168 | the outcome matches the file's decoding; a definition fills fresh id and line-count arrays and appends its line sets to the old line list; a save fills the handler exactly; an unknown magic changes nothing |
| FileHandler.RawFileHandler.ParseDefinition | game/src/RawFileHandler.java:105-156 | the CAFEBEEF branch ends as the definition decodes; on success the arrays hold the pieces' ids and counts and the rotations are untouched |
| FileHandler.RawFileHandler.ReadDefinitionPieces | game/src/RawFileHandler.java:114-153 | the piece loop stops with the decoder's own error, or leaves the ids, counts and appended line sets of the decoded definition |
| FileHandler.RawFileHandler.DefinitionStep | game/src/RawFileHandler.java:116-151 | one turn reads the next piece and extends the loop's state by it, or stops with the decoder's error |
| FileHandler.RawFileHandler.LoadFile | game/src/RawFileHandler.java:257-331 | loadFile succeeds exactly when the save decodes, and then the handler holds exactly that save; otherwise it reports the decoder's error |
| FileHandler.RawFileHandler.ReadSavePieces | game/src/RawFileHandler.java:281-323 | loadFile's piece loop fills positions, rotations, counts and line sets of the decoded save, or stops with its error |
| FileHandler.RawFileHandler.SaveStep | game/src/RawFileHandler.java:283-322 | one turn reads the next saved piece and extends the loop's state by it, or stops with the decoder's error |
| FileHandler.ReadDefPiece | game/src/RawFileHandler.java:116-151 | reads one definition piece at word `pos`, as ParseDefPiece does, writing id and count into slot i and nothing else |
| FileHandler.ReadSavePiece | game/src/RawFileHandler.java:283-322 | reads one saved piece at word `pos`, as ParseSavePiece does, writing slot i of the three arrays and nothing else |
| FileHandler.ReadSegments | game/src/RawFileHandler.java:130-148 | the segment loop reads `count` segments of four float words each, as the format's reader does |
| FileHandler.ReadInt | game/src/RawFileHandler.java:107-108 | the read at word k yields convertToInt of bytes 4k..4k+3 |
| FileHandler.WriteHeader | game/src/RawFileHandler.java:189-200 | the four magic bytes are CA FE DE ED, followed by the count 16 |
| FileHandler.WriteLine | game/src/RawFileHandler.java:222-235 | a segment is written as its four coordinates x0, y0, x1, y1, 16 bytes in all |
| FileHandler.WriteLines | game/src/RawFileHandler.java:221-236 | a piece's segments are written in order |
| FileHandler.WritePiece | game/src/RawFileHandler.java:204-236 | a piece is written as the id of its container, its rotation, its segment count and its segments |
| FileHandler.WritePieces | game/src/RawFileHandler.java:202-237 | the loop writes the first sixteen pieces of the registry in order |
| FileHandler.SaveFile | game/src/RawFileHandler.java:181-244 | saveFile writes exactly the save layout of the first sixteen pieces, and that file decodes back to their positions, rotations and segments |
| Board.CellCounter.constructor | game/src/Cell.java:39 | cell numbering starts at 16 |
| Board.Cell.constructor | game/src/Cell.java:48-58 | a new cell takes the counter's value as its id and advances the counter by one (wrapping) |
| Board.ConstructCells | game/src/Cell.java:48-58 | k constructions give ids start, start+1, … (wrapped), and the counter ends k further on |
| Board.GridIds | game/src/Cell.java:39-58 | the sixteen grid cells built from the initial counter have ids 16..31, pairwise distinct |
| Board.CellIdsDistinct | game/src/Cell.java:48-58 | cells from one run of fewer than 2^32 constructions have distinct ids |
| Board.PositionOf | game/src/Content.java:209-220 | getPosition is the parent cell's id, or the parent tile's position; without a parent there is none |
| Board.NextTheta | game/src/Content.java:149-153 | incrementTheta steps 0→1→2→3→0 and keeps a negative rotation above -4 (Java `%`) |
| Board.FourTurnsRestore | game/src/Content.java:149-153 | four quarter turns bring a rotation in 0..3 back to itself |
| Board.TurnsPeriodic | game/src/Content.java:149-153 | from a rotation in 0..3, the rotation after n turns has period 4 |
| Board.TurnsStayInRange | game/src/Content.java:149-153 | turning never takes a rotation out of 0..3 |
| Board.TurnsSettle | game/src/Content.java:149-153 | any saved rotation, even out of range, is in 0..3 after four turns |
| Board.TurnsAdd | game/src/Content.java:149-153 | a+b turns are b turns after a turns |
| Board.Content.constructor | game/src/Content.java:70-86 | a new piece takes line set `lineInfo[contentIndex]`, starts unrotated and advances the counter |
| Board.ConstructContents | game/src/Content.java:70-86 | k constructions give fresh pieces with successive line sets |
| Board.Content.IncrementTheta | game/src/Content.java:149-153 | only the rotation changes, to NextTheta of the old one |
| Board.Content.SetLines | game/src/Content.java:162-164 | only the segments change |
| Board.Content.SetRotateCount | game/src/Content.java:176-180 | current and default rotation both become the setting |
| Board.Content.SetSavedRotation | game/src/Content.java:182-185 | only the current rotation changes; the default is kept |
| Board.Snapshot | game/src/RawFileHandler.java:210-218 | what saveFile reads of a piece: its container's id, its rotation and its segments |
| Clock.TickTime | game/src/Clock.java:68-80 | a timer event adds 100 ms while running and nothing while paused |
| Clock.RunningTicks | game/src/Clock.java:68-80 | n events while running add exactly 100·n ms |
| Clock.PausedTicks | game/src/Clock.java:68-80 | no number of events while paused changes the time |
| Clock.Clock.constructor | game/src/Clock.java:36-38 | the clock starts at 0 ms, paused |
| Clock.Clock.Tick | game/src/Clock.java:68-80 | a timer event sets the time to TickTime of the old time and flag, and leaves the flag alone |
| Clock.Clock.SetGoTime | game/src/Clock.java:126-129 | only the run flag changes |
| Clock.Clock.SetCurrentTime | game/src/Clock.java:136-139 | only the time changes |
| WinCheck.ScanFromMeaning | game/src/WinCheck.java:46-63 | the scan ends AllHome iff every remaining piece is home; otherwise it names the first piece that is not home, or has no parent, with all before it home |
| WinCheck.ScanDecidesWin | game/src/WinCheck.java:46-78 | the check declares a win iff all sixteen pieces sit in container id+16 unrotated |
| WinCheck.Views | game/src/WinCheck.java:50-52 | piece i is seen through its content id, its parent's position and its current rotation |
| WinCheck.WinCheck.IdCheck | game/src/WinCheck.java:46-78 | the verdict is the scan's; a win sets isMatched, pauses the clock and clears the changed flag; a miss clears isMatched and touches neither clock nor window |
| WinCheck.WinCheck.Scan | game/src/WinCheck.java:48-63 | the loop's verdict is ScanFrom of the pieces' views; isMatched is set on a win and cleared at the first piece not home |
| FileOptions.Container | game/src/FileOptions.java:171-196 | position i < 16 names tile i, position i ≥ 16 names grid cell i − 16 |
| FileOptions.ContainerPosition | game/src/FileOptions.java:164-196 | with the grid numbered 16..31, a piece placed in container i reports position i |
| FileOptions.PlaceInto | game/src/FileOptions.java:167-196 | one pass for container i moves every piece whose position is i there with its loaded rotation, and runs past the end of fewer than sixteen positions |
| FileOptions.ArrangePieces | game/src/FileOptions.java:142-209 | with sixteen or more positions, each piece whose position is on the board moves there and takes its loaded rotation, the rest stay, resets become the loaded arrays and the clock is set to the load time and paused; with fewer, only the pieces before the end whose position is 0 move, and the clock and window are untouched (the source throws); default rotations and segments are always kept |
| FileOptions.RemoveAll | game/src/FileOptions.java:108-114 | emptying a container takes every piece in it off the board; rotations, default rotations and segments are kept |
| FileOptions.WipeBoard | game/src/FileOptions.java:101-117 | the bad-file wipe takes every piece on one of the 16 tiles or 16 cells off the board and changes nothing else of any piece |
| FileOptions.LoadOption | game/src/FileOptions.java:85-134 | cancel changes nothing; a bad file wipes the board and sets the maze-file check only; a definition file (CAFEBEEF) returns before arrangePieces, leaving everything as it was; any other file is arranged, or aborted part-way when it has fewer than sixteen positions, with the pieces' other fields and window.changed kept |
| Window.WindowState.SetChanged | game/src/WinCheck.java:70 | only the changed flag is set |

## Left out

- File I/O is not modelled. A file is a byte sequence plus a flag saying whether it exists. `saveFile` returns the bytes it would write.
- The IOException paths (a stream that fails to open, read or write) are not modelled.
- The constructor's not-found dialog is not modelled.
- FileHandler.RawFileHandler.ParseBytes: a short read is weaker than the source. The source ignores `InputStream.read`'s count and keeps going, with the buffer's previous bytes. The model stops with an explicit `Truncated` error. It commits the arrays it has allocated and the line sets read so far.
- FileHandler.RawFileHandler.LoadFile: the same short-read treatment as ParseBytes. The line list is cleared first, as in the source.
- A negative count word makes the source's array allocation throw `NegativeArraySizeException`. Here it is the `NegativeSize` error.
- Floats are opaque 32-bit patterns, because the handler only copies them. The `double`→`float` casts in `saveFile` (`getX1()` and the like) are taken as exact on values read as floats.
- FileHandler.SaveFile requires the sixteen pieces to have a parent. The source would throw a NullPointerException in `getPosition` otherwise. `Tile.getContentArray()` is the `contentList` parameter.
- Painting, borders, layouts, `select`/`deselect`, dialogs and the Swing timer are not modelled. This covers `paintComponent`, `addLabel`'s layout and `getClockPanel`.
- `Clock.Tick` is one timer event; the timer that fires it every 100 ms is not modelled.
- Clock.TickTime: a running clock past Long.MAX_VALUE wraps (`Wrap64`). The contract only states the non-overflowing case.
- `GameWindow`, `MouseHandler`, `Tile` and `Main` are not part of this model, except for the few `GameWindow` statics in `Window.WindowState`.
- These accessors are not defined in the source shown, so their values are parameters or plain fields:
  - `Content.getContentId`, used by the win check;
  - `RawFileHandler.getLoadTime`, `getHexCheck`, `getMazeFileCheck`, `getDefaultCheck` and `setMazeFileCheck`, used by `FileOptions`;
  - `Tile.getPosition`, where tile i is taken to report i;
  - `GameWindow.getLoadComponents`, `setIsNewLoad` and `setNewReset*`.
- ArrangePieces: the source re-reads the load file with a new `RawFileHandler`. The model takes that handler's `getTileIds` and `getTileRotations` as parameters.
- WinCheck.WinCheck.IdCheck: a piece without a parent makes the source throw. The model ends the scan with `NoParentAt`, leaving the clock and the window as they were.
- No elapsed time is written to or read from a save by saveFile or loadFile, so the model has none. The clock is set from `getLoadTime` only.
- A definition parse appends to `lineInfo_` without clearing it, and it leaves `tileRotations_` as it was; the model does the same.
- Board.Content.constructor: requires a line set at the counter's index. In the source each piece parses `input/default.mze` with its own handler and calls `lineInfo_.get(contentIndex_)`, which throws IndexOutOfBoundsException when that file is missing or has too few pieces; that path is not modelled.
- FileOptions.ArrangePieces / FileOptions.LoadOption: the exception on a short save is modelled as the `Aborted` outcome, which ends the method; the exception's propagation to the caller is not modelled.
- `FileOptions.saveOption` is not modelled. It is the file dialog and overwrite prompt around `saveFile`.
