/**
  The package-locker system of `storage.c`: a grid of cells allocated from a
  configuration file, a counter of stored packages and a master password,
  all updated in place by the push, extract and load operations.
 */
module Storage {

  import opened Wrappers
  import opened Text
  import opened Format
  import opened Grid

  /** What `malloc` hands `str_createSystem` before `initStorage` runs over it. */
  function Unset(): Cell {
    Cell(0, 0, 0, "", "")
  }

  class DeliverySystem {

    /** `deliverySystem`: the cell matrix, `rows` x `cols`. */
    var grid: array2<Cell>
    /** `storedCnt`: raised by every successful push, lowered by every successful extract. */
    var storedCnt: int
    /** `systemSize[0]` and `systemSize[1]`. */
    var rows: nat
    var cols: nat
    var masterPassword: string

    /** The cells as a value, row by row. */
    ghost var Cells: Cells

    ghost predicate Valid()
      reads this, grid
    {
      grid.Length0 == rows && grid.Length1 == cols
      && Shaped(Cells, rows, cols)
      && forall i, j :: 0 <= i < rows && 0 <= j < cols ==> grid[i, j] == Cells[i][j]
    }

    /** The module's static initial state: no grid, no packages, an empty master password. */
    constructor ()
      ensures Valid() && fresh(grid)
      ensures rows == 0 && cols == 0 && storedCnt == 0 && masterPassword == ""
    {
      grid := new Cell[0, 0];
      storedCnt := 0;
      rows := 0;
      cols := 0;
      masterPassword := "";
      Cells := [];
    }

    /** `initStorage`: reset one cell to the empty cell of the current master password. */
    method InitStorage(x: int, y: int)
      requires Valid() && InRange(rows, cols, x, y)
      modifies this, grid
      ensures Valid()
      ensures grid == old(grid) && rows == old(rows) && cols == old(cols)
      ensures storedCnt == old(storedCnt) && masterPassword == old(masterPassword)
      ensures Cells == Set(old(Cells), x, y, EmptyCell(masterPassword))
    {
      grid[x, y] := EmptyCell(masterPassword);
      Cells := Set(Cells, x, y, EmptyCell(masterPassword));
    }

    /** `inputPasswd` with the typed password as a parameter: true when it is
        the cell's password or the master password. */
    predicate InputPasswd(x: int, y: int, input: string)
      reads this, grid
      requires Valid() && InRange(rows, cols, x, y)
      ensures InputPasswd(x, y, input) <==> Authorized(Cells[x][y], masterPassword, input)
    {
      input == grid[x, y].passwd || input == masterPassword
    }

    /** `str_checkStorage`: -1 outside the grid, otherwise the cell's package count. */
    function CheckStorage(x: int, y: int): (r: int)
      reads this, grid
      requires Valid()
      ensures !InRange(rows, cols, x, y) ==> r == -1
      ensures InRange(rows, cols, x, y) ==> r == Cells[x][y].cnt
    {
      if x < 0 || x >= rows then -1
      else if y < 0 || y >= cols then -1
      else grid[x, y].cnt
    }

    /** `str_pushToStorage`: refuse a content over 100 characters or a password
        over 4, otherwise overwrite the cell and count one more package, whether
        or not the cell already held one. The grid is indexed only after the
        length check, and without a bounds check. */
    method PushToStorage(x: int, y: int, nBuilding: int, nRoom: int, msg: string, passwd: string) returns (status: int)
      requires Valid() && (Accepts(msg, passwd) ==> InRange(rows, cols, x, y))
      modifies this, grid
      ensures Valid()
      ensures grid == old(grid) && rows == old(rows) && cols == old(cols) && masterPassword == old(masterPassword)
      ensures status == (if Accepts(msg, passwd) then 0 else -1)
      ensures Cells == Pushed(old(Cells), x, y, nBuilding, nRoom, msg, passwd)
      ensures storedCnt == old(storedCnt) + (if Accepts(msg, passwd) then 1 else 0)
      // the counter drifts one above the occupied cells when the push overwrites a package
      ensures storedCnt - OccupiedCount(Cells) ==
                old(storedCnt - OccupiedCount(Cells)) + (if Accepts(msg, passwd) && old(IsOccupied(Cells[x][y])) then 1 else 0)
      ensures old(WellFormed(Cells, masterPassword)) ==> WellFormed(Cells, masterPassword)
    {
      if |msg| > 100 || |passwd| > 4 {
        return -1;
      }
      CountAfterSet(Cells, x, y, Stored(nBuilding, nRoom, msg, passwd));
      grid[x, y] := Stored(nBuilding, nRoom, msg, passwd);
      Cells := Set(Cells, x, y, Stored(nBuilding, nRoom, msg, passwd));
      storedCnt := storedCnt + 1;
      return 0;
    }

    /** `str_extractStorage`: on the right password hand out the content, reset
        the cell and count one package less, whether or not the cell held one. */
    method ExtractStorage(x: int, y: int, input: string) returns (status: int, content: string)
      requires Valid() && InRange(rows, cols, x, y)
      modifies this, grid
      ensures Valid()
      ensures grid == old(grid) && rows == old(rows) && cols == old(cols) && masterPassword == old(masterPassword)
      ensures !Authorized(old(Cells[x][y]), masterPassword, input) ==>
                status == -1 && content == "" && Cells == old(Cells) && storedCnt == old(storedCnt)
      ensures Authorized(old(Cells[x][y]), masterPassword, input) ==>
                status == 0 && content == old(Cells[x][y].context)
                && Cells == Set(old(Cells), x, y, EmptyCell(masterPassword))
                && storedCnt == old(storedCnt) - 1
      // the counter drifts one below the occupied cells when the extract empties an empty cell
      ensures storedCnt - OccupiedCount(Cells) ==
                old(storedCnt - OccupiedCount(Cells)) - (if Authorized(old(Cells[x][y]), masterPassword, input) && !old(IsOccupied(Cells[x][y])) then 1 else 0)
      ensures old(WellFormed(Cells, masterPassword)) ==> WellFormed(Cells, masterPassword)
    {
      if !InputPasswd(x, y, input) {
        return -1, "";
      }
      CountAfterSet(Cells, x, y, EmptyCell(masterPassword));
      content := grid[x, y].context;
      InitStorage(x, y);
      storedCnt := storedCnt - 1;
      status := 0;
    }

    /** `str_findStorage`: the cells whose destination is `nBuilding`/`nRoom`,
        in the order the nested loops visit them, and how many there are. */
    method FindStorage(nBuilding: int, nRoom: int) returns (cnt: int, found: seq<(int, int)>)
      requires Valid()
      ensures found == Matches(Cells, nBuilding, nRoom)
      ensures cnt == |found|
    {
      found := [];
      var row := 0;
      while row < rows
        invariant 0 <= row <= rows
        invariant found == Matches(Cells[..row], nBuilding, nRoom)
      {
        var col := 0;
        ghost var before := found;
        while col < cols
          invariant 0 <= col <= cols
          invariant found == before + RowMatches(Cells[row][..col], row, nBuilding, nRoom)
        {
          RowMatchesStep(Cells[row], row, col, nBuilding, nRoom);
          if grid[row, col].building == nBuilding && grid[row, col].room == nRoom {
            Seqs.Assoc(before, RowMatches(Cells[row][..col], row, nBuilding, nRoom), [(row, col)]);
            found := found + [(row, col)];
          } else {
            Seqs.EmptyLeft(RowMatches(Cells[row][..col], row, nBuilding, nRoom));
          }
          col := col + 1;
        }
        MatchesStep(Cells, row, nBuilding, nRoom);
        assert Cells[row][..cols] == Cells[row];
        row := row + 1;
      }
      assert Cells[..rows] == Cells;
      cnt := |found|;
    }

    /** `str_backupSystem` with the outcome of `fopen` as `canOpen`: the text
        written, a header then one line per occupied cell in row-major order. */
    method BackupSystem(canOpen: bool) returns (status: int, text: string)
      requires Valid()
      ensures !canOpen ==> status == -1 && text == ""
      ensures canOpen ==>
                status == 0 && text == Encode(Config(rows, cols, masterPassword, OccupiedRecords(Cells)))
    {
      if !canOpen {
        return -1, "";
      }
      var header := Header(rows, cols, masterPassword);
      text := header;
      Seqs.EmptyLeft(header);
      var row := 0;
      while row < rows
        invariant 0 <= row <= rows
        invariant text == header + RecordsText(OccupiedRecords(Cells[..row]))
      {
        text := BackupRow(row, text, header, OccupiedRecords(Cells[..row]));
        OccupiedRecordsStep(Cells, row);
        row := row + 1;
      }
      assert Cells[..rows] == Cells;
      status := 0;
    }

    /** The inner loop of the backup: append the lines of the occupied cells of row `row`, left to right. */
    method BackupRow(row: nat, text: string, ghost header: string, ghost before: seq<Record>) returns (out: string)
      requires Valid() && row < rows
      requires text == header + RecordsText(before)
      ensures out == header + RecordsText(before + RowRecords(Cells[row], row))
    {
      out := text;
      Seqs.EmptyLeft(before);
      var col := 0;
      while col < cols
        invariant 0 <= col <= cols
        invariant out == header + RecordsText(before + RowRecords(Cells[row][..col], row))
      {
        var c := grid[row, col];
        BackupCellStep(header, before, Cells[row], row, col);
        if c.cnt > 0 {
          out := out + RecordText(RecordOf(row, col, c));
        }
        col := col + 1;
      }
      assert Cells[row][..cols] == Cells[row];
    }

    /** `str_createSystem` with the file's text as `file` (`None` when `fopen`
        fails): take the size and master password, allocate and reset every
        cell, then push the records in file order. The counter is not reset. */
    method CreateSystem(file: Option<string>) returns (status: int)
      requires Valid()
      requires file.Some? ==> Decode(file.value).Some?
      requires file.Some? ==> var cfg := Decode(file.value).value; Fits(cfg.records, cfg.rows, cfg.cols)
      modifies this
      ensures Valid()
      ensures file.None? ==>
                status == -1 && grid == old(grid) && rows == old(rows) && cols == old(cols)
                && storedCnt == old(storedCnt) && masterPassword == old(masterPassword) && Cells == old(Cells)
      ensures file.Some? ==> var cfg := Decode(file.value).value;
                status == 0 && fresh(grid) && rows == cfg.rows && cols == cfg.cols && masterPassword == cfg.master
                && Cells == Load(cfg) && WellFormed(Cells, masterPassword)
                && storedCnt == old(storedCnt) + AcceptedCount(cfg.records)
    {
      if file.None? {
        return -1;
      }
      var cfg := Decode(file.value).value;
      Allocate(cfg.rows, cfg.cols, cfg.master);
      InitWellFormed(rows, cols, masterPassword);
      ApplyRecords(cfg.records);
      return 0;
    }

    /** The first half of a load: take the size and master password, allocate
        the grid and run `initStorage` over every cell, row by row. */
    method Allocate(nRows: nat, nCols: nat, master: string)
      modifies this
      ensures Valid() && fresh(grid)
      ensures rows == nRows && cols == nCols && masterPassword == master && storedCnt == old(storedCnt)
      ensures Cells == InitCells(rows, cols, masterPassword)
    {
      rows, cols := nRows, nCols;
      masterPassword := master;
      grid := new Cell[rows, cols]((i, j) => Unset());
      Cells := seq(nRows, i => seq(nCols, j => Unset()));
      var row := 0;
      while row < rows
        invariant 0 <= row <= rows
        invariant Valid() && fresh(grid)
        invariant rows == nRows && cols == nCols && masterPassword == master && storedCnt == old(storedCnt)
        invariant forall i, j :: 0 <= i < row && 0 <= j < cols ==> Cells[i][j] == EmptyCell(masterPassword)
      {
        var col := 0;
        while col < cols
          invariant 0 <= col <= cols
          invariant Valid() && fresh(grid)
          invariant rows == nRows && cols == nCols && masterPassword == master && storedCnt == old(storedCnt)
          invariant forall i, j :: 0 <= i < row && 0 <= j < cols ==> Cells[i][j] == EmptyCell(masterPassword)
          invariant forall j :: 0 <= j < col ==> Cells[row][j] == EmptyCell(masterPassword)
        {
          InitStorage(row, col);
          col := col + 1;
        }
        row := row + 1;
      }
      GridExtensionality(Cells, InitCells(rows, cols, masterPassword), rows, cols);
    }

    /** The second half of a load: push every record, in file order. */
    method ApplyRecords(recs: seq<Record>)
      requires Valid() && WellFormed(Cells, masterPassword) && Fits(recs, rows, cols)
      modifies this, grid
      ensures Valid() && WellFormed(Cells, masterPassword)
      ensures grid == old(grid) && rows == old(rows) && cols == old(cols) && masterPassword == old(masterPassword)
      ensures Cells == Replay(old(Cells), rows, cols, recs)
      ensures storedCnt == old(storedCnt) + AcceptedCount(recs)
    {
      var k := 0;
      while k < |recs|
        invariant 0 <= k <= |recs|
        invariant Valid() && WellFormed(Cells, masterPassword)
        invariant grid == old(grid) && rows == old(rows) && cols == old(cols) && masterPassword == old(masterPassword)
        invariant Fits(recs[..k], rows, cols)
        invariant Cells == Replay(old(Cells), rows, cols, recs[..k])
        invariant storedCnt == old(storedCnt) + AcceptedCount(recs[..k])
      {
        var r := recs[k];
        ReplayStep(old(Cells), rows, cols, recs, k);
        var _ := PushToStorage(r.x, r.y, r.building, r.room, r.msg, r.passwd);
        k := k + 1;
      }
      assert recs[..k] == recs;
    }

    /** Right after the reset loop of a load, every cell in range is empty and
        carries the master password. */
    lemma CheckAfterInit()
      requires Valid() && Cells == InitCells(rows, cols, masterPassword)
      ensures forall x, y :: InRange(rows, cols, x, y) ==> CheckStorage(x, y) == 0
      ensures forall x, y :: InRange(rows, cols, x, y) ==> Cells[x][y].passwd == masterPassword
    {
    }

    /** With every cell well formed, a check answers -1 exactly outside the grid. */
    lemma CheckOutside(x: int, y: int)
      requires Valid() && WellFormed(Cells, masterPassword)
      ensures CheckStorage(x, y) == -1 <==> !InRange(rows, cols, x, y)
      ensures CheckStorage(x, y) == 0 || CheckStorage(x, y) == 1 <==> InRange(rows, cols, x, y)
    {
    }
  }

  /** Loading the text a backup writes rebuilds the system: the same size,
      master password and cells, and the counter rises by the number of
      occupied cells. It needs every password and content stored to be a
      non-empty word without white space. */
  lemma BackupRestores(g: Cells, rows: nat, cols: nat, master: string)
    requires Shaped(g, rows, cols) && WellFormed(g, master) && Storable(g) && IsToken(master)
    ensures var cfg := Config(rows, cols, master, OccupiedRecords(g));
            Decode(Encode(cfg)) == Some(cfg) && Fits(cfg.records, rows, cols)
            && Load(cfg) == g && AcceptedCount(cfg.records) == OccupiedCount(g)
  {
    OccupiedRecordsEncodable(g);
    DecodeEncode(Config(rows, cols, master, OccupiedRecords(g)));
    LoadOccupied(g, rows, cols, master);
    OccupiedAccepted(g, master);
  }
}
