# Level editor: the level document and its file

This project models the core of a level editor for a 2-D tile game. A level
is a rectangular grid of cells indexed `[row y][column x]`. Each cell holds
the name of the element placed there and that element's parameter values.
The empty name means nothing is placed. A level also has a name, a storage
path that may be null, and a saved flag. The class `Levels.Level` has these
fields. Its methods do what the editor's `Level` does:

- `Init` rebuilds the grid at a size.
- `Add` places a catalog element. Its declared parameters are seeded with their defaults, and the level becomes changed.
- `Select` reads a cell.
- `GetSize` reads the dimensions off the storage.
- `IsNew` and `IsChanged` answer the two state questions.
- `Save` retargets the level to a new name and path. It writes the width, the height and then one name per cell in row-major order.
- `Load` reads such a file back. It replaces the grid and returns one cell-loaded notification per cell.

`Level.DefaultSize` is the 20 by 15 size of a new level (level.cpp:10).

The data stream is modelled as a sequence of tokens: numbers and strings
(module `Codec`). The file system is a map from full file names to token
sequences. `Load` takes it as a parameter, and `Save` returns the updated map.
The native directory separator is a parameter `sep`. The signal `elementLoaded`
becomes the sequence of `ElementLoaded(name, (column, row))` values that `Load`
returns. The catalog entry that `add` reads is passed to `Add` as an `Element`
value: a name and an ordered list of (parameter name, default) pairs.

From the main window, three pieces of logic are modelled:

- Module `Paths`: how a chosen file is split into a name and a path.
- `MainWindow.MenuActionsState`: which widgets each menu state enables.
- `MainWindow.CloseLevel`: the decision to close the open level. The user's reply to the unsaved-changes question is an input.

The model keeps the code's behaviour where it is loose or surprising:

- Nothing checks bounds, dimensions or stream contents, and no error is reported. `Add` and `Select` therefore require an in-range place. `Load` turns a short or corrupt stream into blank names. Zero-sized grids are allowed.
- A load whose file is missing leaves the grid as it was. It does not reset the grid.
- The header is written as two `int`s but read back into two `size_t`s (see Findings).
- The main window builds levels with the element catalog as an extra first argument (`mainwindow.cpp:86`, `mainwindow.cpp:123`). It calls `add` with an element name (`mainwindow.cpp:56`). The model follows the level's own signatures instead: `Level(name, size)`, `Level(name, path)` and `add(element, place)`. `level.h` is not part of this model.

## Model

| member | source | states |
|---|---|---|
| `Elements.Defaults` | level.cpp:97-101 | every entry of the parameter hash holds the default of a parameter declared under that name |
| `Elements.DefaultsKeys` | level.cpp:97-101 | the parameter hash `add` builds has exactly one key per declared parameter name |
| `Elements.DefaultsLastWins` | level.cpp:98-101 | a name maps to the default of the last parameter declared under it, so a later duplicate overwrites an earlier one |
| `Elements.Placed` | level.cpp:95-103 | the placed description carries the element's name and exactly its declared parameters, whatever the cell held before |
| `Grids.SizeOfGrid` | level.cpp:72-78 | the size read off h rows of w cells each is (w, h) when h > 0, and (0, 0) when there are no rows |
| `Grids.BlankGrid` | level.cpp:28-33 | `init` leaves exactly h rows of exactly w blank cells (empty name, no parameters); its size is (w, h) when h > 0, else (0, 0) |
| `Grids.RowMajorDivMod` | level.cpp:54-63 | the cell at row r, column c is the (r * w + c)-th in row-major order, and that index maps back to column c and row r |
| `Codec.Encode` | level.cpp:119-127 | what `save` writes: the width, then the height, then exactly the given names as strings, in order |
| `Codec.NamesOfLength` | level.cpp:121-127 | a w-by-h grid contributes exactly w * h names to the saved stream |
| `Codec.NamesOfAt` | level.cpp:121-127 | the name of cell [r][c] is written at position r * w + c, row 0 first, each row left to right |
| `Codec.ReadNum` | level.cpp:50 | one `stream >> width`: a number token is read and the rest of the stream follows it unchanged; on an exhausted or mismatched stream the value is 0 and nothing more can be read |
| `Codec.ReadStr` | level.cpp:58-59 | one `stream >> name`: a string token is read and the rest follows it unchanged; on an exhausted or mismatched stream the name is "" and nothing more can be read |
| `Codec.ReadStrs` | level.cpp:54-59 | k successive name reads yield exactly k names |
| `Codec.Decode` | level.cpp:47-59 | a load reads a width, a height and then exactly width * height names |
| `Codec.GridOfNames` | level.cpp:52-61 | the loaded grid has exactly height rows of width cells each |
| `Codec.GridOfNamesAt` | level.cpp:61 | loaded cell [r][c] holds the (r * w + c)-th name read, with an empty parameter map |
| `Codec.LoadEvents` | level.cpp:63 | one notification per name read, in reading order, each carrying that name |
| `Codec.LoadEventAt` | level.cpp:63 | the notification for cell [r][c] is the (r * w + c)-th one, and it carries that cell's name and the point (c, r) |
| `Codec.GridBeingLoadedStep` | level.cpp:56-61 | storing the next name read into the next cell in row-major order extends the partly loaded grid by that one cell |
| `Codec.DecodeEncode` | level.cpp:119-127 | decoding an encoded header and names gives back the same size and the same names in the same order |
| `Codec.SaveLoadRoundTrip` | level.cpp:50-61 | loading what was saved from a rectangular grid reproduces its size and every name in place, with every parameter map empty |
| `Codec.ReadShort` | level.cpp:54-59 | reading more names than a stream holds gives its names in order and then "" for each read past the end |
| `Codec.DecodeTruncated` | level.cpp:47-59 | a file cut off after its first names loads with the header as written, those names first and "" for every missing one; nothing reports the truncation |
| `Codec.ReadPastEnd` | level.cpp:54-59 | a stream with no name token left, whether exhausted or holding only numbers, reads every name as "" |
| `Levels.PathText` | level.cpp:37 | a null path contributes the empty text to the file name; a set path contributes itself |
| `Levels.Level.DefaultLevelStream` | level.cpp:10 | a blank level of the default 20 by 15 size is saved as the header 20, 15 and then 300 empty names |
| `Levels.Level.FileName` | level.cpp:37 | the file `load` opens is path, separator, name; with a null path it is the separator followed by the name |
| `Levels.Level.WithSize` | level.cpp:12-17 | a level built with a size has a blank grid of that size, no path, is new and is changed |
| `Levels.Level.WithPath` | level.cpp:19-23 | a level built with a path is neither new nor changed, and its grid is empty (size (0, 0)) until it is loaded |
| `Levels.Level.Init` | level.cpp:28-33 | the previous grid is discarded and replaced by the blank grid of the size; name, path and saved flag are unchanged |
| `Levels.Level.Load` | level.cpp:35-70 | with the file missing, nothing changes and nothing is emitted; otherwise the grid becomes the decoded width-by-height grid of names with empty parameters, one notification per cell is returned in row-major order, and name, path and saved flag are unchanged |
| `Levels.Level.GetSize` | level.cpp:72-78 | the size is (0, 0) without rows, and it describes exactly the rows and row length of a rectangular grid |
| `Levels.Level.Select` | level.cpp:80-83 | for an in-range place, the result is a copy of exactly cell [y][x]; reading changes nothing |
| `Levels.Level.IsNew` | level.cpp:85-88 | true exactly when the level has no path |
| `Levels.Level.IsChanged` | level.cpp:90-93 | true exactly when the level is not in the saved state |
| `Levels.Level.Add` | level.cpp:95-106 | for an in-range place, that cell becomes the placed description of the element, every other cell is unchanged, the level is changed, and name and path are kept |
| `Levels.Level.Save` | level.cpp:108-134 | name and path become the new ones; the file path/name receives the width, the height and every name in row-major order; no other file changes; the grid is kept and the level is no longer changed |
| `Levels.SaveThenReopen` | mainwindow.cpp:121-127 | a level bound to a just-saved file and then loaded has the saved level's size and every name in place, with empty parameters; one notification per cell |
| `Paths.ToNativeSeparators` | mainwindow.cpp:17 | each '/' becomes the native separator; nothing else changes |
| `Paths.LastIndexOf` | mainwindow.cpp:18 | the last position holding the separator, or -1 exactly when there is none |
| `Paths.Mid` | mainwindow.cpp:20-21 | QString::mid: past the end is empty, a negative or oversized length runs to the end, otherwise exactly that many characters |
| `Paths.FilePath` | level.cpp:113 | the file `save` opens: exactly the path, then one separator, then the name |
| `Paths.ExtractNameAndPath` | mainwindow.cpp:15-22 | the name has no separator; with a separator, path + separator + name is the normalised source and the path stops before the last separator; without one, name and path are both the whole source; a source ending in a separator gives an empty name |
| `Paths.SplitFilePath` | mainwindow.cpp:15-22 | a file path built from a path and a separator-free name splits back into exactly that name and path (when no '/' needs normalising) |
| `MainWindow.MenuActionsState` | mainwindow.cpp:229-233 | the draw area is enabled exactly when a level is open, and Save exactly when it has changes |
| `MainWindow.Decide` | mainwindow.cpp:177-196 | an unchanged level closes without asking; for a changed one, Yes and No close, Yes saving first, and Cancel or any other button keeps it |
| `MainWindow.CloseLevelAsWritten` | mainwindow.cpp:198-199 | as written, closing an open level leaves the pointer at the deleted level, and a call on a deleted level is undefined |
| `MainWindow.CloseTwiceAsWrittenReadsFreed` | mainwindow.cpp:172-202 | as written, closing an unchanged level and then closing again reads the deleted level |
| `MainWindow.CloseLevel` | mainwindow.cpp:172-202 | with no level it closes; with an unchanged level it closes; with a changed one Yes (saving) and No close and the rest keep the level; a closed level is released and the pointer reset, so no close ever reads a deleted level |
| `HeaderWidth.WidthMisread` | level.cpp:47-50 | reading the 32-bit header with 64-bit reads takes width * 2^32 + height as the width, which differs from the width for every size but 0 by 0 |
| `HeaderWidth.DefaultSizeMisread` | level.cpp:10 | for a saved level of the default size `Level.DefaultSize` (20 by 15), that width is 85899345935 |
| `HeaderWidth.HeaderRoundTrip` | level.cpp:119 | read at the width it is written with, the header gives back the saved width and height |

## Findings

| source | as written | input that shows it | evidently intended | confidence | as-written member | corrected member |
|---|---|---|---|---|---|---|
| mainwindow.cpp:198-199 | `closeLevel` deletes the level but does not reset the pointer | open an unchanged level, choose New Level and give an empty name (mainwindow.cpp:79-84), then close the window: `closeLevel` calls `isChanged` on the deleted level | set the pointer to null after deleting the level | high, not executed | `MainWindow.CloseTwiceAsWrittenReadsFreed` | `MainWindow.CloseLevel` |
| level.cpp:47-50 | `save` writes the width and height as `int` (32 bits each, level.cpp:119); `load` reads them into `size_t` | where `size_t` is 64 bits: saving a 20 by 15 level and loading it reads the width as 85899345935 | read the header with the same width it is written with | medium: it depends on the platform's `size_t` and the stream operator it selects; not executed | `HeaderWidth.WidthMisread` | `HeaderWidth.HeaderRoundTrip` |

The token model in `Codec` reads back the same numbers `Save` wrote. That is
the corrected, same-width header.

## Left out

- Qt widgets, dialogs, message boxes, `ui->...` calls and `setActionChoosed`: user interface only.
- The window's other command handlers (`on_actionNewLevel_triggered`, `on_actionSaveLevel_triggered`, `on_actionLoadLevel_triggered`, `placeElementOnLevel`, `selectElement`, `closeEvent`): dialog and widget glue around the modelled level operations.
- Asset discovery (`updateElementsList`, `loadElement`, the configuration and pictures): file-system and image I/O. An `Element` carries no picture.
- Signal and slot wiring (`bindSlots`) and the repainting in `placeLoadedElement`. The notifications are returned by `Load`.
- `DrawArea` and `ElementDescriptionWidget`: painting and mouse handling.
- The byte format of the data stream (byte order, string length prefixes) and the opening and closing of files. Both are abstracted as tokens and a map of files. The width of the header is treated separately in `HeaderWidth`.
- A file that cannot be opened for writing: the source still marks the level saved, while the model always stores the file.
- `qDebug` logging, including the message for a missing file.
- `MainWindow.CloseLevel`: for Yes, the save command is reported as `saveRequested` and not run, because it opens a file dialog. The level is then closed whether or not that dialog saves it.
- `Levels.Level.Load`: a header value above 2^31 - 1 is narrowed into QSize's `int` before `init` runs. The model does not do this and builds the full grid.
- `Levels.Level.Load`: the exact QDataStream failure rules are not modelled. A missing or mismatched token reads as 0 or "", and the rest of the stream then counts as exhausted.
- `Levels.Level.Save`: a null new path is not modelled. The path always becomes the given string, as it does when it comes from `extarctNameAndPath`.
- Negative sizes: `Size` has natural-number fields. QSize allows negative values, but `std::vector::assign` cannot use them.
- The destructor `~Level` does nothing and is not modelled.
