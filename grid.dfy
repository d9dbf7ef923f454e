/**
  The locker grid as a value: a `rows` x `cols` matrix of cells, indexed
  `[row][col]`, and the whole-grid views the storage operations are specified
  by — the cells `str_findStorage` reports, the records `str_backupSystem`
  writes, and the grid the load loop of `str_createSystem` builds.
 */
module Grid {

  import opened Wrappers
  import opened Text
  import opened Format

  /** One locker cell (`storage_t`): destination building and room, number of
      packages, cell password and package content. */
  datatype Cell = Cell(building: int, room: int, cnt: int, passwd: string, context: string)

  type Cells = seq<seq<Cell>>

  /** The limits of the length check of a push (`strlen(msg) > 100 || strlen(passwd) > 4`). */
  const MaxMsgSize := 100
  const PasswdLen := 4

  /** A cell as `initStorage` leaves it: no destination, no package, the
      master password and an empty content. */
  function EmptyCell(master: string): Cell {
    Cell(0, 0, 0, master, "")
  }

  /** The test the backup and the status display apply to a cell. */
  predicate IsOccupied(c: Cell) {
    c.cnt > 0
  }

  /** The length check of a push: true when the push goes ahead. */
  predicate Accepts(msg: string, passwd: string) {
    !(|msg| > MaxMsgSize || |passwd| > PasswdLen)
  }

  /** The cell a successful push writes. */
  function Stored(building: int, room: int, msg: string, passwd: string): Cell {
    Cell(building, room, 1, passwd, msg)
  }

  /** `inputPasswd`'s test: the input matches the cell's password or the master password. */
  predicate Authorized(c: Cell, master: string, input: string) {
    input == c.passwd || input == master
  }

  predicate Shaped(g: Cells, rows: nat, cols: nat) {
    |g| == rows && forall i :: 0 <= i < |g| ==> |g[i]| == cols
  }

  predicate InRange(rows: int, cols: int, x: int, y: int) {
    0 <= x < rows && 0 <= y < cols
  }

  /** What every cell looks like between operations: an empty cell is exactly
      the reset cell, an occupied one holds one package that passed the length check. */
  predicate WellFormedCell(c: Cell, master: string) {
    if c.cnt == 0 then c == EmptyCell(master) else c.cnt == 1 && Accepts(c.context, c.passwd)
  }

  predicate WellFormed(g: Cells, master: string) {
    forall i, j :: 0 <= i < |g| && 0 <= j < |g[i]| ==> WellFormedCell(g[i][j], master)
  }

  /** The grid with cell `(x, y)` replaced by `c`; every other cell as it was. */
  function Set(g: Cells, x: int, y: int, c: Cell): (h: Cells)
    requires 0 <= x < |g| && 0 <= y < |g[x]|
    ensures |h| == |g| && forall i :: 0 <= i < |g| ==> |h[i]| == |g[i]|
    ensures h[x][y] == c
    ensures forall i, j :: 0 <= i < |g| && 0 <= j < |g[i]| && (i != x || j != y) ==> h[i][j] == g[i][j]
  {
    g[x := g[x][y := c]]
  }

  /** The grid after `str_pushToStorage`: unchanged when the length check
      fails, otherwise the target cell overwritten, occupied or not. */
  function Pushed(g: Cells, x: int, y: int, building: int, room: int, msg: string, passwd: string): Cells
    requires Accepts(msg, passwd) ==> 0 <= x < |g| && 0 <= y < |g[x]|
  {
    if Accepts(msg, passwd) then Set(g, x, y, Stored(building, room, msg, passwd)) else g
  }

  /** The grid `initStorage` builds for every cell in turn. */
  function InitCells(rows: nat, cols: nat, master: string): (g: Cells)
    ensures Shaped(g, rows, cols)
    ensures forall i, j :: 0 <= i < rows && 0 <= j < cols ==> g[i][j] == EmptyCell(master)
  {
    seq(rows, _ => seq(cols, _ => EmptyCell(master)))
  }

  // ------------------------------------------------------------------- find

  predicate Destined(c: Cell, building: int, room: int) {
    c.building == building && c.room == room
  }

  /** The columns of row `x` (given as `row`) whose cell is bound for `building`/`room`, left to right. */
  function RowMatches(row: seq<Cell>, x: int, building: int, room: int): seq<(int, int)>
  {
    if row == [] then []
    else
      var y := |row| - 1;
      RowMatches(row[..y], x, building, room) + (if Destined(row[y], building, room) then [(x, y)] else [])
  }

  /** One more column of a row searched. */
  lemma RowMatchesStep(row: seq<Cell>, x: int, y: int, building: int, room: int)
    requires 0 <= y < |row|
    ensures RowMatches(row[..y + 1], x, building, room)
         == RowMatches(row[..y], x, building, room) + (if Destined(row[y], building, room) then [(x, y)] else [])
  {
    assert row[..y + 1][..y] == row[..y];
  }

  /** One more row searched. */
  lemma MatchesStep(g: Cells, x: int, building: int, room: int)
    requires 0 <= x < |g|
    ensures Matches(g[..x + 1], building, room) == Matches(g[..x], building, room) + RowMatches(g[x], x, building, room)
  {
    assert g[..x + 1][..x] == g[..x];
  }

  /** The cells bound for `building`/`room`, in row-major order, occupied or not. */
  function Matches(g: Cells, building: int, room: int): seq<(int, int)>
  {
    if g == [] then []
    else
      var x := |g| - 1;
      Matches(g[..x], building, room) + RowMatches(g[x], x, building, room)
  }

  /** Strict row-major order of two coordinates. */
  predicate Before(p: (int, int), q: (int, int)) {
    p.0 < q.0 || (p.0 == q.0 && p.1 < q.1)
  }

  predicate RowMajor(ps: seq<(int, int)>) {
    forall k, l :: 0 <= k < l < |ps| ==> Before(ps[k], ps[l])
  }

  lemma {:induction false} RowMatchesMember(row: seq<Cell>, x: int, building: int, room: int, p: (int, int))
    ensures p in RowMatches(row, x, building, room)
        <==> p.0 == x && 0 <= p.1 < |row| && Destined(row[p.1], building, room)
  {
    if row != [] {
      var y := |row| - 1;
      RowMatchesMember(row[..y], x, building, room, p);
    }
  }

  /** `(i, j)` is listed exactly when it is a cell of the grid bound for `building`/`room`. */
  lemma {:induction false} MatchesMember(g: Cells, building: int, room: int, p: (int, int))
    ensures p in Matches(g, building, room)
        <==> 0 <= p.0 < |g| && 0 <= p.1 < |g[p.0]| && Destined(g[p.0][p.1], building, room)
  {
    if g != [] {
      var x := |g| - 1;
      MatchesMember(g[..x], building, room, p);
      RowMatchesMember(g[x], x, building, room, p);
    }
  }

  /** The search does not look at `cnt`: every empty cell of a well-formed
      grid is reported for building 0, room 0. */
  lemma EmptyCellsMatchOrigin(g: Cells, master: string, i: int, j: int)
    requires WellFormed(g, master) && 0 <= i < |g| && 0 <= j < |g[i]| && !IsOccupied(g[i][j])
    ensures (i, j) in Matches(g, 0, 0)
  {
    MatchesMember(g, 0, 0, (i, j));
  }

  lemma {:induction false} RowMatchesOrdered(row: seq<Cell>, x: int, building: int, room: int)
    ensures RowMajor(RowMatches(row, x, building, room))
    ensures forall k :: 0 <= k < |RowMatches(row, x, building, room)|
              ==> RowMatches(row, x, building, room)[k].0 == x
                  && 0 <= RowMatches(row, x, building, room)[k].1 < |row|
  {
    if row != [] {
      var y := |row| - 1;
      RowMatchesOrdered(row[..y], x, building, room);
    }
  }

  /** The matches come in strict row-major order, so no cell is listed twice. */
  lemma {:induction false} MatchesOrdered(g: Cells, building: int, room: int)
    ensures RowMajor(Matches(g, building, room))
    ensures forall k :: 0 <= k < |Matches(g, building, room)| ==> 0 <= Matches(g, building, room)[k].0 < |g|
  {
    if g != [] {
      var x := |g| - 1;
      MatchesOrdered(g[..x], building, room);
      RowMatchesOrdered(g[x], x, building, room);
    }
  }

  lemma {:induction false} RowMatchesBound(row: seq<Cell>, x: int, building: int, room: int)
    ensures |RowMatches(row, x, building, room)| <= |row|
  {
    if row != [] {
      RowMatchesBound(row[..|row| - 1], x, building, room);
    }
  }

  /** No more matches than cells. */
  lemma {:induction false} MatchesBound(g: Cells, rows: nat, cols: nat, building: int, room: int)
    requires Shaped(g, rows, cols)
    ensures |Matches(g, building, room)| <= rows * cols
  {
    if g != [] {
      var x := |g| - 1;
      assert Shaped(g[..x], x, cols) by {
        assert forall i :: 0 <= i < x ==> g[..x][i] == g[i];
      }
      MatchesBound(g[..x], x, cols, building, room);
      RowMatchesBound(g[x], x, building, room);
      RowBoundAdds(|Matches(g[..x], building, room)|, |RowMatches(g[x], x, building, room)|, x, cols);
    }
  }

  /** A bound of `x` rows plus one row of `cols` is a bound of `x + 1` rows. */
  lemma RowBoundAdds(m: nat, r: nat, x: nat, cols: nat)
    requires m <= x * cols && r <= cols
    ensures m + r <= (x + 1) * cols
  {
    assert (x + 1) * cols == x * cols + cols;
  }

  // ----------------------------------------------------------------- backup

  /** The record line written for the occupied cell `c` at `(x, y)`. */
  function RecordOf(x: int, y: int, c: Cell): Record {
    Record(x, y, c.building, c.room, c.passwd, c.context)
  }

  function RowRecords(row: seq<Cell>, x: int): seq<Record>
  {
    if row == [] then []
    else
      var y := |row| - 1;
      RowRecords(row[..y], x) + (if IsOccupied(row[y]) then [RecordOf(x, y, row[y])] else [])
  }

  /** One more column of a row scanned for the backup. */
  lemma RowRecordsStep(row: seq<Cell>, x: int, y: int)
    requires 0 <= y < |row|
    ensures RowRecords(row[..y + 1], x)
         == RowRecords(row[..y], x) + (if IsOccupied(row[y]) then [RecordOf(x, y, row[y])] else [])
  {
    assert row[..y + 1][..y] == row[..y];
  }

  /** One more row scanned for the backup. */
  lemma OccupiedRecordsStep(g: Cells, x: int)
    requires 0 <= x < |g|
    ensures OccupiedRecords(g[..x + 1]) == OccupiedRecords(g[..x]) + RowRecords(g[x], x)
  {
    assert g[..x + 1][..x] == g[..x];
  }

  /** The records a backup writes: one per occupied cell, in row-major order. */
  function OccupiedRecords(g: Cells): seq<Record>
  {
    if g == [] then []
    else
      var x := |g| - 1;
      OccupiedRecords(g[..x]) + RowRecords(g[x], x)
  }

  /** The text written once the backup has looked at one more cell of row `x`. */
  lemma BackupCellStep(header: string, before: seq<Record>, row: seq<Cell>, x: int, y: int)
    requires 0 <= y < |row|
    ensures header + RecordsText(before + RowRecords(row[..y + 1], x))
         == header + RecordsText(before + RowRecords(row[..y], x))
            + (if IsOccupied(row[y]) then RecordText(RecordOf(x, y, row[y])) else "")
  {
    RowRecordsStep(row, x, y);
    var done := before + RowRecords(row[..y], x);
    if IsOccupied(row[y]) {
      var r := RecordOf(x, y, row[y]);
      Seqs.Assoc(before, RowRecords(row[..y], x), [r]);
      AppendRecordLine(header, done, r);
    } else {
      Seqs.EmptyLeft(RowRecords(row[..y], x));
      Seqs.EmptyLeft(header + RecordsText(done));
    }
  }

  /** The number of occupied cells. */
  function OccupiedCount(g: Cells): nat {
    |OccupiedRecords(g)|
  }

  lemma {:induction false} RowRecordsMember(row: seq<Cell>, x: int, rec: Record)
    ensures rec in RowRecords(row, x)
        <==> rec.x == x && 0 <= rec.y < |row| && IsOccupied(row[rec.y]) && rec == RecordOf(x, rec.y, row[rec.y])
  {
    if row != [] {
      RowRecordsMember(row[..|row| - 1], x, rec);
    }
  }

  /** A record is written exactly for each occupied cell, and holds that cell's fields. */
  lemma {:induction false} OccupiedRecordsMember(g: Cells, rec: Record)
    ensures rec in OccupiedRecords(g)
        <==> 0 <= rec.x < |g| && 0 <= rec.y < |g[rec.x]| && IsOccupied(g[rec.x][rec.y])
             && rec == RecordOf(rec.x, rec.y, g[rec.x][rec.y])
  {
    if g != [] {
      var x := |g| - 1;
      OccupiedRecordsMember(g[..x], rec);
      RowRecordsMember(g[x], x, rec);
    }
  }

  /** Every occupied cell holds a password and a content that are words `%s` reads back whole. */
  predicate Storable(g: Cells) {
    forall i, j :: 0 <= i < |g| && 0 <= j < |g[i]| && IsOccupied(g[i][j])
      ==> IsToken(g[i][j].passwd) && IsToken(g[i][j].context)
  }

  lemma OccupiedRecordsEncodable(g: Cells)
    requires Storable(g)
    ensures RecordsEncodable(OccupiedRecords(g))
  {
    forall k | 0 <= k < |OccupiedRecords(g)|
      ensures IsToken(OccupiedRecords(g)[k].passwd) && IsToken(OccupiedRecords(g)[k].msg)
    {
      OccupiedRecordsMember(g, OccupiedRecords(g)[k]);
    }
  }

  // --------------------------------------------------------------- counting

  lemma {:induction false} RowRecordsUpdate(row: seq<Cell>, x: int, y: int, c: Cell)
    requires 0 <= y < |row|
    ensures |RowRecords(row[y := c], x)|
         == |RowRecords(row, x)| - (if IsOccupied(row[y]) then 1 else 0) + (if IsOccupied(c) then 1 else 0)
  {
    var n := |row| - 1;
    var row' := row[y := c];
    if y == n {
      assert row'[..n] == row[..n];
    } else {
      assert row'[..n] == row[..n][y := c];
      RowRecordsUpdate(row[..n], x, y, c);
    }
  }

  /** Replacing one cell changes the number of occupied cells by the change in that cell alone. */
  lemma {:induction false} CountAfterSet(g: Cells, x: int, y: int, c: Cell)
    requires 0 <= x < |g| && 0 <= y < |g[x]|
    ensures OccupiedCount(Set(g, x, y, c))
         == OccupiedCount(g) - (if IsOccupied(g[x][y]) then 1 else 0) + (if IsOccupied(c) then 1 else 0)
  {
    var n := |g| - 1;
    var h := Set(g, x, y, c);
    if x == n {
      assert h[..n] == g[..n];
      RowRecordsUpdate(g[n], n, y, c);
    } else {
      assert h[..n] == Set(g[..n], x, y, c);
      CountAfterSet(g[..n], x, y, c);
    }
  }

  /** A push on a cell that already holds a package adds no occupied cell,
      although the counter goes up by one. */
  lemma PushOccupiedDrift(g: Cells, x: int, y: int, building: int, room: int, msg: string, passwd: string)
    requires 0 <= x < |g| && 0 <= y < |g[x]| && IsOccupied(g[x][y]) && Accepts(msg, passwd)
    ensures OccupiedCount(Pushed(g, x, y, building, room, msg, passwd)) == OccupiedCount(g)
  {
    CountAfterSet(g, x, y, Stored(building, room, msg, passwd));
  }

  /** A push on an empty cell adds exactly one occupied cell, as the counter does. */
  lemma PushEmptyCount(g: Cells, x: int, y: int, building: int, room: int, msg: string, passwd: string)
    requires 0 <= x < |g| && 0 <= y < |g[x]| && !IsOccupied(g[x][y]) && Accepts(msg, passwd)
    ensures OccupiedCount(Pushed(g, x, y, building, room, msg, passwd)) == OccupiedCount(g) + 1
  {
    CountAfterSet(g, x, y, Stored(building, room, msg, passwd));
  }

  /** Extracting from an empty cell removes no occupied cell, although the counter goes down by one. */
  lemma ExtractEmptyDrift(g: Cells, master: string, x: int, y: int)
    requires 0 <= x < |g| && 0 <= y < |g[x]| && !IsOccupied(g[x][y])
    ensures OccupiedCount(Set(g, x, y, EmptyCell(master))) == OccupiedCount(g)
  {
    CountAfterSet(g, x, y, EmptyCell(master));
  }

  /** Extracting from an occupied cell removes exactly one occupied cell, as the counter does. */
  lemma ExtractOccupiedCount(g: Cells, master: string, x: int, y: int)
    requires 0 <= x < |g| && 0 <= y < |g[x]| && IsOccupied(g[x][y])
    ensures OccupiedCount(Set(g, x, y, EmptyCell(master))) == OccupiedCount(g) - 1
  {
    CountAfterSet(g, x, y, EmptyCell(master));
  }

  // ---------------------------------------------------------- invariants

  lemma InitWellFormed(rows: nat, cols: nat, master: string)
    ensures WellFormed(InitCells(rows, cols, master), master)
    ensures OccupiedCount(InitCells(rows, cols, master)) == 0
  {
    var g := InitCells(rows, cols, master);
    if OccupiedCount(g) != 0 {
      var rec := OccupiedRecords(g)[0];
      OccupiedRecordsMember(g, rec);
    }
  }

  /** Push keeps every cell well formed. */
  lemma PushWellFormed(g: Cells, master: string, x: int, y: int, building: int, room: int, msg: string, passwd: string)
    requires WellFormed(g, master) && 0 <= x < |g| && 0 <= y < |g[x]|
    ensures WellFormed(Pushed(g, x, y, building, room, msg, passwd), master)
  {
  }

  /** Extract keeps every cell well formed. */
  lemma ResetWellFormed(g: Cells, master: string, x: int, y: int)
    requires WellFormed(g, master) && 0 <= x < |g| && 0 <= y < |g[x]|
    ensures WellFormed(Set(g, x, y, EmptyCell(master)), master)
  {
  }

  // ------------------------------------------------------------------- load

  /** Every record the length check lets through names a cell of the grid
      (a push indexes the grid only after that check). */
  predicate Fits(rs: seq<Record>, rows: nat, cols: nat) {
    forall k :: 0 <= k < |rs| && Accepts(rs[k].msg, rs[k].passwd) ==> InRange(rows, cols, rs[k].x, rs[k].y)
  }

  /** The grid after the load loop has pushed the records `rs` onto `g`, in order. */
  function Replay(g: Cells, rows: nat, cols: nat, rs: seq<Record>): (h: Cells)
    requires Shaped(g, rows, cols) && Fits(rs, rows, cols)
    ensures Shaped(h, rows, cols)
  {
    if rs == [] then g
    else
      var n := |rs| - 1;
      var r := rs[n];
      assert Fits(rs[..n], rows, cols) by {
        forall k | 0 <= k < n && Accepts(rs[..n][k].msg, rs[..n][k].passwd)
          ensures InRange(rows, cols, rs[..n][k].x, rs[..n][k].y)
        {
          assert rs[..n][k] == rs[k];
        }
      }
      Pushed(Replay(g, rows, cols, rs[..n]), r.x, r.y, r.building, r.room, r.msg, r.passwd)
  }

  /** The number of records that pass the length check: the pushes that raise the counter. */
  function AcceptedCount(rs: seq<Record>): (n: nat)
    ensures n <= |rs|
    ensures n == |rs| <==> forall k :: 0 <= k < |rs| ==> Accepts(rs[k].msg, rs[k].passwd)
  {
    if rs == [] then 0
    else
      var n := |rs| - 1;
      AcceptedCount(rs[..n]) + (if Accepts(rs[n].msg, rs[n].passwd) then 1 else 0)
  }

  /** The grid a file describes: every cell reset, then the records pushed in file order. */
  function Load(cfg: Config): (g: Cells)
    requires Fits(cfg.records, cfg.rows, cfg.cols)
    ensures Shaped(g, cfg.rows, cfg.cols)
  {
    Replay(InitCells(cfg.rows, cfg.cols, cfg.master), cfg.rows, cfg.cols, cfg.records)
  }

  /** One more turn of the load loop. */
  lemma ReplayStep(g: Cells, rows: nat, cols: nat, rs: seq<Record>, k: nat)
    requires Shaped(g, rows, cols) && Fits(rs, rows, cols) && k < |rs|
    ensures Fits(rs[..k], rows, cols) && Fits(rs[..k + 1], rows, cols)
    ensures Accepts(rs[k].msg, rs[k].passwd) ==> InRange(rows, cols, rs[k].x, rs[k].y)
    ensures Replay(g, rows, cols, rs[..k + 1])
         == Pushed(Replay(g, rows, cols, rs[..k]), rs[k].x, rs[k].y, rs[k].building, rs[k].room, rs[k].msg, rs[k].passwd)
    ensures AcceptedCount(rs[..k + 1]) == AcceptedCount(rs[..k]) + (if Accepts(rs[k].msg, rs[k].passwd) then 1 else 0)
  {
    assert rs[..k + 1][..k] == rs[..k];
    assert forall m :: 0 <= m < k + 1 ==> rs[..k + 1][m] == rs[m];
  }

  /** The cell a record fills. */
  function CellOf(r: Record): Cell {
    Stored(r.building, r.room, r.msg, r.passwd)
  }

  /** The last record of `rs` that names `(i, j)` and passes the length check. */
  function Lookup(rs: seq<Record>, i: int, j: int): Option<Record> {
    if rs == [] then None
    else
      var n := |rs| - 1;
      if rs[n].x == i && rs[n].y == j && Accepts(rs[n].msg, rs[n].passwd) then Some(rs[n])
      else Lookup(rs[..n], i, j)
  }

  /** After a replay, a cell holds the last accepted record for it, or what it held before. */
  lemma {:induction false} ReplayCell(g: Cells, rows: nat, cols: nat, rs: seq<Record>, i: int, j: int)
    requires Shaped(g, rows, cols) && Fits(rs, rows, cols) && InRange(rows, cols, i, j)
    ensures Replay(g, rows, cols, rs)[i][j]
         == match Lookup(rs, i, j) case None => g[i][j] case Some(r) => CellOf(r)
  {
    if rs != [] {
      var n := |rs| - 1;
      ReplayCell(g, rows, cols, rs[..n], i, j);
    }
  }

  lemma {:induction false} LookupAppend(a: seq<Record>, b: seq<Record>, i: int, j: int)
    ensures Lookup(a + b, i, j) == if Lookup(b, i, j).Some? then Lookup(b, i, j) else Lookup(a, i, j)
    decreases |b|
  {
    if b == [] {
      assert a + b == a;
    } else {
      Seqs.AppendDropLast(a, b);
      LookupAppend(a, b[..|b| - 1], i, j);
    }
  }

  lemma {:induction false} RowLookup(row: seq<Cell>, x: int, i: int, j: int)
    ensures Lookup(RowRecords(row, x), i, j)
         == if i == x && 0 <= j < |row| && IsOccupied(row[j]) && Accepts(row[j].context, row[j].passwd)
            then Some(RecordOf(x, j, row[j])) else None
  {
    if row != [] {
      var y := |row| - 1;
      RowLookup(row[..y], x, i, j);
      LookupAppend(RowRecords(row[..y], x), if IsOccupied(row[y]) then [RecordOf(x, y, row[y])] else [], i, j);
    }
  }

  /** The backup's records name each occupied cell once with its own fields. */
  lemma {:induction false} OccupiedLookup(g: Cells, i: int, j: int)
    ensures Lookup(OccupiedRecords(g), i, j)
         == if 0 <= i < |g| && 0 <= j < |g[i]| && IsOccupied(g[i][j]) && Accepts(g[i][j].context, g[i][j].passwd)
            then Some(RecordOf(i, j, g[i][j])) else None
  {
    if g != [] {
      var x := |g| - 1;
      OccupiedLookup(g[..x], i, j);
      RowLookup(g[x], x, i, j);
      LookupAppend(OccupiedRecords(g[..x]), RowRecords(g[x], x), i, j);
    }
  }

  lemma OccupiedRecordsFit(g: Cells, rows: nat, cols: nat)
    requires Shaped(g, rows, cols)
    ensures Fits(OccupiedRecords(g), rows, cols)
  {
    forall k | 0 <= k < |OccupiedRecords(g)|
      ensures InRange(rows, cols, OccupiedRecords(g)[k].x, OccupiedRecords(g)[k].y)
    {
      OccupiedRecordsMember(g, OccupiedRecords(g)[k]);
    }
  }

  lemma GridExtensionality(g: Cells, h: Cells, rows: nat, cols: nat)
    requires Shaped(g, rows, cols) && Shaped(h, rows, cols)
    requires forall i, j :: 0 <= i < rows && 0 <= j < cols ==> g[i][j] == h[i][j]
    ensures g == h
  {
    forall i | 0 <= i < rows
      ensures g[i] == h[i]
    {
      assert forall j :: 0 <= j < cols ==> g[i][j] == h[i][j];
    }
  }

  /** Loading the records a backup writes, onto a freshly reset grid with the
      same size and master password, rebuilds the grid cell for cell. */
  lemma LoadOccupied(g: Cells, rows: nat, cols: nat, master: string)
    requires Shaped(g, rows, cols) && WellFormed(g, master)
    ensures Fits(OccupiedRecords(g), rows, cols)
    ensures Load(Config(rows, cols, master, OccupiedRecords(g))) == g
  {
    var rs := OccupiedRecords(g);
    OccupiedRecordsFit(g, rows, cols);
    var h := Load(Config(rows, cols, master, rs));
    forall i, j | 0 <= i < rows && 0 <= j < cols
      ensures h[i][j] == g[i][j]
    {
      ReplayCell(InitCells(rows, cols, master), rows, cols, rs, i, j);
      OccupiedLookup(g, i, j);
    }
    GridExtensionality(h, g, rows, cols);
  }

  lemma {:induction false} AllAccepted(rs: seq<Record>)
    requires forall k :: 0 <= k < |rs| ==> Accepts(rs[k].msg, rs[k].passwd)
    ensures AcceptedCount(rs) == |rs|
  {
    if rs != [] {
      var n := |rs| - 1;
      assert forall k :: 0 <= k < n ==> rs[..n][k] == rs[k];
      AllAccepted(rs[..n]);
    }
  }

  /** Every record of a well-formed grid's backup passes the length check, so
      loading it raises the counter by the number of occupied cells. */
  lemma OccupiedAccepted(g: Cells, master: string)
    requires WellFormed(g, master)
    ensures AcceptedCount(OccupiedRecords(g)) == OccupiedCount(g)
  {
    var rs := OccupiedRecords(g);
    forall k | 0 <= k < |rs|
      ensures Accepts(rs[k].msg, rs[k].passwd)
    {
      OccupiedRecordsMember(g, rs[k]);
    }
    AllAccepted(rs);
  }
}
