# Package-locker storage, modelled in Dafny

This project models `storage.c`, the storage core of a package-locker
("delivery system") program. The program keeps a `rows` x `cols` grid of
locker cells. Each cell records:

- the destination building and room;
- a package count `cnt`;
- a cell password;
- the package content, a message string.

Beside the grid it keeps a counter of stored packages (`storedCnt`) and a
master password. A courier pushes a package into a cell. A resident extracts
it with the cell password or the master password. Anyone can search for the
cells bound for a building and room. The whole state is loaded from a text
file at start-up and can be backed up to one.

Layout, one module per file:

- `wrappers.dfy` (`Wrappers`): the `Option` type.
- `seqs.dfy` (`Seqs`): small sequence identities the string proofs use.
- `text.dfy` (`Text`): what `fscanf`'s `%s` and `%d` conversions read from a
  text, and what `fprintf`'s `%d` writes.
- `format.dfy` (`Format`): the backup file. `Encode` is the text the backup
  writes. `Decode` is what the load loop reads back, including how it handles
  the end of the file.
- `grid.dfy` (`Grid`): the grid as a value. It defines the cell type, the
  one-cell update, the search result, the backup's records and the grid a
  load builds, and proves the lemmas about them.
- `storage.dfy` (`Storage`): the class `DeliverySystem`. It holds the grid in
  an `array2<Cell>`, plus `storedCnt`, `rows`, `cols` and `masterPassword`,
  all updated in place. A ghost field `Cells` mirrors the array as a
  sequence of rows, and `Valid()` ties the two together. Each C operation is
  a method or function whose contract relates the new state to the `Grid`
  functions.

Each operation is tied to a partner property:

- Push and extract: their effect on the number of occupied cells. They
  change `storedCnt` whether or not a package was added or removed, so the
  counter can drift from the true number.
- Find: it reports exactly the matching cells, in row-major order.
- Backup and load: loading what the backup wrote rebuilds the same grid.

## Model

| member | source | states |
|---|---|---|
| Storage.DeliverySystem.constructor | storage.c:24-27 | The static initial state: an empty 0 x 0 grid, `storedCnt` 0 and an empty master password. |
| Storage.DeliverySystem.InitStorage | storage.c:56-66 | The cell `(x, y)` becomes the empty cell: building 0, room 0, `cnt` 0, the master password and an empty content. Every other cell, the counter and the master password are unchanged. |
| Storage.DeliverySystem.InputPasswd | storage.c:75-91 | Accepts the typed password exactly when it equals the cell's password or the master password. |
| Storage.DeliverySystem.CheckStorage | storage.c:191-200 | -1 for any coordinate outside the grid; otherwise that cell's `cnt`. It reads the state and changes nothing. |
| Storage.DeliverySystem.CheckOutside | storage.c:191-200 | When every cell is well formed, the check answers -1 exactly when the coordinate is outside the grid, and 0 or 1 exactly when it is inside. |
| Storage.DeliverySystem.CheckAfterInit | storage.c:119-126 | Right after the reset loop of a load, the check answers 0 for every cell in range, and every cell holds the master password. |
| Storage.DeliverySystem.PushToStorage | storage.c:212-228 | A content over 100 characters or a password over 4 gives -1, and the cells and the counter stay unchanged. Otherwise it returns 0 and overwrites the target cell with the destination, `cnt` 1, the password and the content, whether or not the cell was occupied. The counter goes up by exactly 1, every other cell is unchanged, and well-formed cells stay well formed. The gap between the counter and the number of occupied cells grows by 1 exactly when an accepted push overwrites an occupied cell, and is unchanged otherwise. In-range coordinates are required only when the length check passes. |
| Storage.DeliverySystem.ExtractStorage | storage.c:237-252 | A wrong password gives -1, and the cells and the counter stay unchanged. A right one returns 0 and the cell's prior content, resets the cell to the empty cell and lowers the counter by exactly 1. No other cell changes. The gap between the counter and the number of occupied cells shrinks by 1 exactly when a right password empties an already empty cell, and is unchanged otherwise. |
| Storage.DeliverySystem.FindStorage | storage.c:261-275 | Returns the cells whose building and room match, in the order the nested loops visit them, and their number. It changes nothing. |
| Storage.DeliverySystem.BackupSystem | storage.c:283-311 | When the file cannot be opened it returns -1 and writes nothing. Otherwise it returns 0 and writes exactly `Encode` of the size, the master password and the records of the occupied cells in row-major order. |
| Storage.DeliverySystem.BackupRow | storage.c:298-305 | One turn of the outer backup loop appends exactly the lines of that row's occupied cells, left to right. |
| Storage.DeliverySystem.CreateSystem | storage.c:102-139 | When the file cannot be opened it returns -1 and changes nothing. Otherwise it returns 0 with a fresh grid. The size and master password are the file's, and the cells are the reset grid with the file's records pushed in order, all well formed. The counter rises by the number of records that passed the push length check; it is not reset. |
| Storage.DeliverySystem.Allocate | storage.c:114-126 | After the header is taken and the reset loop has run, every cell is the empty cell of the new master password, and the counter is unchanged. |
| Storage.DeliverySystem.ApplyRecords | storage.c:128-133 | The record loop leaves the grid the records' pushes make, in file order. The counter rises by the number of accepted records, and well-formed cells stay well formed. |
| Storage.BackupRestores | storage.c:294-305 | Backing up a well-formed grid, then decoding the text and loading it, gives back the same size, master password and every cell. The counter rises by the number of occupied cells. This needs every stored password and content to be a non-empty word without white space. |
| Grid.Set | storage.c:219-223 | Replacing cell `(x, y)` keeps the grid's shape, puts the new cell at `(x, y)` and leaves every other cell as it was. |
| Grid.InitCells | storage.c:124-126 | The reset grid has the given shape, and every cell is the empty cell of the master password. |
| Grid.MatchesMember | storage.c:266-272 | A coordinate is reported exactly when it is a cell of the grid whose building and room match, occupied or not (both directions). |
| Grid.MatchesOrdered | storage.c:266-272 | The matches come in strict row-major order, so no cell is reported twice, and each names a row of the grid. |
| Grid.MatchesBound | storage.c:263-274 | The count is at most `rows * cols`. |
| Grid.EmptyCellsMatchOrigin | storage.c:268-269 | The search does not test `cnt`: every empty cell is reported for building 0, room 0. |
| Grid.OccupiedRecordsMember | storage.c:298-305 | The backup writes a record exactly for each occupied cell, carrying that cell's coordinates, destination, password and content (both directions). |
| Grid.CountAfterSet | storage.c:219-225 | Replacing one cell changes the number of occupied cells only by that cell's change. |
| Grid.PushOccupiedDrift | storage.c:219-223 | An accepted push on an occupied cell leaves the number of occupied cells unchanged. |
| Grid.PushEmptyCount | storage.c:219-223 | An accepted push on an empty cell adds exactly one occupied cell. |
| Grid.ExtractEmptyDrift | storage.c:247-249 | Resetting an empty cell, as an extract does, leaves the number of occupied cells unchanged. |
| Grid.ExtractOccupiedCount | storage.c:247-249 | Resetting an occupied cell, as an extract does, removes exactly one occupied cell. |
| Grid.InitWellFormed | storage.c:124-126 | The reset grid is well formed and has no occupied cell. |
| Grid.PushWellFormed | storage.c:215-223 | A push keeps every cell well formed: an empty cell equals the reset cell, and an occupied one has `cnt` 1 and lengths within the push limits. |
| Grid.ResetWellFormed | storage.c:56-66 | Resetting a cell keeps every cell well formed. |
| Grid.ReplayCell | storage.c:128-133 | After the record loop, each cell holds the last accepted record naming it, or its earlier contents when no record names it. |
| Grid.OccupiedLookup | storage.c:298-305 | In the backup's records, the last accepted record for a cell is that cell's own record exactly when the cell is occupied and within the push limits. |
| Grid.LoadOccupied | storage.c:115-133 | Pushing a well-formed grid's backup records onto a reset grid of the same size and master password rebuilds the grid cell for cell. |
| Grid.OccupiedAccepted | storage.c:215-216 | Every backup record of a well-formed grid passes the push length check, so a load raises the counter by the number of occupied cells. |
| Grid.OccupiedRecordsEncodable | storage.c:301-305 | When every occupied cell's password and content are words, every record the backup writes is readable. |
| Format.DecodeEncode | storage.c:294-305 | The load reads back exactly the size, master password and records the backup wrote. |
| Format.DecodeRecordsText | storage.c:129-133 | The record loop reads back every record line written, in order. |
| Format.DecodeWithoutFinalNewline | storage.c:129-133 | When the last record line lacks its final newline, `fgetc` meets the end of the file and that record is not applied; all the others are. |
| Format.DecodeRecordsUnterminated | storage.c:129-133 | The records before an unterminated last line are read in order, and that last line is not. |
| Format.FieldsReadAfter | storage.c:130 | A record line written by the backup's format reads back as the same record, leaving the text after it. |
| Format.ReadRecord | storage.c:130 | A record read consumes input, yields a non-empty, space-free password and content, and stops at white space or the end. |
| Format.DecodeRecords | storage.c:129-133 | Every record the loop reads carries a readable password and content. |
| Format.Decode | storage.c:115-133 | Whatever is loaded has a readable master password and readable records. |
| Text.ReadWord | storage.c:116 | One `%s` conversion finds nothing exactly when only white space is left. Otherwise it yields a non-empty, space-free word and stops at white space or the end. |
| Text.ReadWords | storage.c:130 | At most `n` words are read, each a token. When none is read, nothing is consumed. |
| Text.ReadUnwords | storage.c:130 | Reading as many words as the format wrote gives back exactly those words and the text after them. |
| Text.ReadWordOfToken | storage.c:116 | A `%s` conversion reads back a word written after white space and followed by white space or the end. |
| Text.IntToString | storage.c:294 | `%d` writes a word that `%d` converts back to the same integer. |
| Text.SkipSpace | storage.c:115 | The white space skipped is a prefix, and nothing is left exactly when the text was all white space. |
| Grid.Authorized | storage.c:84-85 | Defines the password test: the input equals the cell's password or the master password. `InputPasswd` is proved equal to it. |
| Grid.Pushed | storage.c:215-223 | Defines the grid after a push: unchanged when the content is over 100 or the password over 4 characters, otherwise the target cell replaced by the destination, `cnt` 1, the password and the content. `PushToStorage` is proved to leave exactly this grid. |
| Grid.Matches | storage.c:266-272 | Defines the search result: the matching coordinates, row by row and left to right within a row. `MatchesMember`, `MatchesOrdered` and `MatchesBound` state its properties. |
| Grid.OccupiedRecords | storage.c:298-305 | Defines the records a backup writes: one per cell with `cnt > 0`, in row-major order. `OccupiedRecordsMember` and `OccupiedLookup` state its properties. |
| Grid.Replay | storage.c:128-133 | The grid after pushing the records in file order keeps the grid's shape. `ReplayCell` gives each cell's final value. |
| Grid.Load | storage.c:115-133 | The grid a file describes, every cell reset and then the records pushed in order, has the file's size. |
| Grid.AcceptedCount | storage.c:128-133 | The number of records that pass the push length check, and so raise the counter. It is at most the number of records, and equals it exactly when every record passes. |
| Format.Header | storage.c:294-295 | Defines the first two lines written: `"%d %d\n"` with the size, then `"%s\n"` with the master password. `DecodeAfterHeader` reads them back. |
| Format.RecordText | storage.c:301-305 | Defines one record line, `"%d %d %d %d %s %s\n"` with the coordinates, destination, password and content. `FieldsReadAfter` reads it back. |
| Format.Encode | storage.c:294-305 | Defines the whole backup text: the header, then the record lines in order. `DecodeEncode` reads it back. |
| Text.IsNumeral | storage.c:115 | Defines the words `%d` converts in full: an optional sign, then one or more decimal digits. |
| Text.ParseInt | storage.c:115 | Defines the value `%d` reads from such a word. `IntToString` is proved to write words it reads back to the same integer. |
| Text.SkipLeadingSpace | storage.c:115 | Skipping white space in front of a word leaves the word and what follows it. |

## Left out

- Console output: `printStorageInside`, `str_printStorageStatus`, and the
  `printf` calls of `str_findStorage` and `inputPasswd`. They only display
  data. The model returns that data instead: the extracted content and the
  coordinates found.
- Keyboard input: `scanf` in `inputPasswd` is replaced by the `input`
  parameter of `ExtractStorage`.
- Real file I/O. A file to load is its text, an `Option<string>` whose `None`
  means `fopen` failed. A backup returns the text it writes, and `canOpen`
  stands for the outcome of `fopen`. `fclose` is not modelled.
- `malloc`, `free` and `str_freeSystem`: memory is managed by Dafny. The
  memory `malloc` returns is modelled as a blank cell, which the reset loop
  overwrites. Allocation failure is not modelled, and neither is the content
  buffer that each `initStorage` allocates and leaks.
- Buffer sizes: `strcpy`, `%s` and `PASSWD_LEN`/`MAX_MSG_SIZE` overflows are
  not modelled. Strings are unbounded. A master password over 4 characters is
  kept whole, and `storage.h` is not part of this model. The push length check
  uses the literals 100 and 4 from storage.c:215.
- 32-bit `int`: coordinates, destinations, sizes and the counter are unbounded
  integers. Overflow of `%d` and of `storedCnt` is not modelled.
- Storage.DeliverySystem.CreateSystem: only well-formed files are loaded, and the
  rest is a precondition. In C, a conversion that fails leaves its variable as
  it was, and the model does not follow that. So an empty file, or one whose
  header is missing or not numeric, keeps the previous size and master
  password; for a non-numeric size, the word it stopped at becomes the master
  password. A record word `%d` cannot convert makes `fgetc` consume one
  character and pushes the previous record's values again, or uninitialised
  ones for the first record, and the counter rises again. A negative size
  makes `malloc` fail or misbehave, and an accepted record naming a cell
  outside the grid writes outside it. `%d` stopping part-way through a word
  is not modelled either: a numeric word must be an optional sign followed by
  digits.
- Storage.DeliverySystem.CreateSystem: the file is decoded before the record
  loop runs, instead of being interleaved with it. The two give the same
  result, because what is read does not depend on the grid.
- Storage.DeliverySystem.PushToStorage and ExtractStorage: in-range
  coordinates are a precondition. The C code does not check them (storage.c:219,
  240) and then indexes outside the grid.
- Storage.BackupRestores: the round trip is proved only when every stored
  password and content, and the master password, is a non-empty word without
  white space. A push accepts an empty or blank content, whose backup line
  the load then misreads.
- Text.IntToString: written for unbounded integers; no 32-bit wrap-around.
- Grid.Accepts and Storage.DeliverySystem.PushToStorage: strings are sequences
  of characters, so the length check counts characters. `strlen` counts bytes
  up to the first NUL, so the two agree only on single-byte text without NUL.
  A content of 51 two-byte UTF-8 characters, for example, is 102 bytes, which
  C refuses but the model stores.
