/**
  The text file a locker system is loaded from and backed up to.

  Line 1 holds the grid size `rows cols`, line 2 the master password, and
  every further line one occupied cell: `row col building room passwd content`.
  Encoding follows the `fprintf` calls of the backup; decoding follows the
  `fscanf`/`fgetc` loop of the load, including its handling of the end of file.
 */
module Format {

  import opened Wrappers
  import opened Text
  import opened Seqs

  /** One record line: the cell it fills, the destination, the cell password and the content. */
  datatype Record = Record(x: int, y: int, building: int, room: int, passwd: string, msg: string)

  /** A whole file: grid size, master password and the records in file order. */
  datatype Config = Config(rows: nat, cols: nat, master: string, records: seq<Record>)

  /** The two strings of every record are words `%s` can write and read back. */
  predicate RecordsEncodable(rs: seq<Record>) {
    forall i :: 0 <= i < |rs| ==> IsToken(rs[i].passwd) && IsToken(rs[i].msg)
  }

  lemma EncodableTail(rs: seq<Record>)
    requires RecordsEncodable(rs) && rs != []
    ensures RecordsEncodable(rs[1..]) && IsToken(rs[0].passwd) && IsToken(rs[0].msg)
  {
  }

  lemma EncodableCons(r: Record, rs: seq<Record>)
    requires IsToken(r.passwd) && IsToken(r.msg) && RecordsEncodable(rs)
    ensures RecordsEncodable([r] + rs)
  {
  }

  predicate Encodable(cfg: Config) {
    IsToken(cfg.master) && RecordsEncodable(cfg.records)
  }

  // ---------------------------------------------------------------- writing

  /** The six words of a record line, in the order the format string lists them. */
  function Fields(r: Record): (ws: seq<string>)
  {
    [IntToString(r.x), IntToString(r.y), IntToString(r.building), IntToString(r.room), r.passwd, r.msg]
  }

  /** `"%d %d %d %d %s %s\n"` */
  function RecordText(r: Record): string {
    Unwords(Fields(r)) + "\n"
  }

  /** The record lines one after the other. */
  function RecordsText(rs: seq<Record>): string {
    if rs == [] then "" else RecordsText(rs[..|rs| - 1]) + RecordText(rs[|rs| - 1])
  }

  /** `"%d %d\n"` with the grid size, then `"%s\n"` with the master password. */
  function Header(rows: nat, cols: nat, master: string): string {
    Unwords([IntToString(rows), IntToString(cols)]) + "\n" + master + "\n"
  }

  function Encode(cfg: Config): string {
    Header(cfg.rows, cfg.cols, cfg.master) + RecordsText(cfg.records)
  }

  lemma {:induction false} RecordsTextAppend(a: seq<Record>, b: seq<Record>)
    ensures RecordsText(a + b) == RecordsText(a) + RecordsText(b)
    decreases |b|
  {
    if b == [] {
      assert a + b == a;
    } else {
      var b' := b[..|b| - 1];
      var line := RecordText(b[|b| - 1]);
      AppendDropLast(a, b);
      assert RecordsText(a + b) == RecordsText(a + b') + line;
      RecordsTextAppend(a, b');
      assert RecordsText(b) == RecordsText(b') + line;
      Assoc(RecordsText(a), RecordsText(b'), line);
    }
  }

  /** Writing one more record line appends it to what was written. */
  lemma AppendRecordLine(header: string, rs: seq<Record>, r: Record)
    ensures header + RecordsText(rs) + RecordText(r) == header + RecordsText(rs + [r])
  {
    assert (rs + [r])[..|rs|] == rs;
    Assoc(header, RecordsText(rs), RecordText(r));
  }

  // ---------------------------------------------------------------- reading

  /** What one `fscanf(fp, "%d %d %d %d %s %s", ...)` meets: the end of the
      file before six words, a word `%d` cannot convert, or a whole record. */
  datatype RecordRead = AtEnd | Malformed | Read(record: Record, rest: string)

  /** Each of the four `%d` conversions that found a word found a numeral. */
  predicate NumbersConvert(ws: seq<string>) {
    && (|ws| > 0 ==> IsNumeral(ws[0]))
    && (|ws| > 1 ==> IsNumeral(ws[1]))
    && (|ws| > 2 ==> IsNumeral(ws[2]))
    && (|ws| > 3 ==> IsNumeral(ws[3]))
  }

  function ReadRecord(s: string): (r: RecordRead)
    ensures r.Read? ==> |r.rest| < |s|
    ensures r.Read? ==> IsToken(r.record.passwd) && IsToken(r.record.msg)
    ensures r.Read? ==> r.rest == [] || IsSpace(r.rest[0])
  {
    var got := ReadWords(s, 6);
    var ws := got.0;
    if !NumbersConvert(ws) then Malformed
    else if |ws| < 6 then AtEnd
    else

      Read(Record(ParseInt(ws[0]), ParseInt(ws[1]), ParseInt(ws[2]), ParseInt(ws[3]), ws[4], ws[5]), got.1)
  }

  /** The load loop: read a record, then `fgetc` one character; a record
      followed directly by the end of the file is not applied, and the loop
      ends there. `None` for a file `fscanf` cannot convert. */
  function DecodeRecords(s: string): (r: Option<seq<Record>>)
    ensures r.Some? ==> RecordsEncodable(r.value)
    decreases |s|
  {
    match ReadRecord(s)
    case AtEnd => Some([])
    case Malformed => None
    case Read(rec, rest) =>
      if rest == [] then Some([])
      else
        match DecodeRecords(rest[1..])
        case None => None
        case Some(more) =>
          EncodableCons(rec, more);
          Some([rec] + more)
  }

  /** The size and master password (`fscanf(fp, "%d %d", ...)` then
      `fscanf(fp, "%s", ...)`), then the records. `None` when the header is
      missing, not numeric or gives a negative size, or a record is not numeric. */
  function Decode(text: string): (r: Option<Config>)
    ensures r.Some? ==> Encodable(r.value)
  {
    var size := ReadWords(text, 2);
    var master := ReadWords(size.1, 1);
    if |size.0| < 2 || !IsNumeral(size.0[0]) || !IsNumeral(size.0[1]) || |master.0| < 1 then None
    else
      var rows := ParseInt(size.0[0]);
      var cols := ParseInt(size.0[1]);
      if rows < 0 || cols < 0 then None
      else
        match DecodeRecords(master.1)
        case None => None
        case Some(recs) => Some(Config(rows, cols, master.0[0], recs))
  }

  // ---------------------------------------------------------- round trips

  lemma ReadRecordOfWords(s: string, ws: seq<string>, rest: string)
    requires ReadWords(s, 6) == (ws, rest) && |ws| == 6
    requires IsNumeral(ws[0]) && IsNumeral(ws[1]) && IsNumeral(ws[2]) && IsNumeral(ws[3])
    ensures ReadRecord(s) == Read(Record(ParseInt(ws[0]), ParseInt(ws[1]), ParseInt(ws[2]), ParseInt(ws[3]), ws[4], ws[5]), rest)
  {
  }

  /** A record line written after white space, and followed by white space or the end, reads back as that record. */
  lemma FieldsReadAfter(lead: string, r: Record, tail: string)
    requires AllSpace(lead) && IsToken(r.passwd) && IsToken(r.msg)
    requires tail == [] || IsSpace(tail[0])
    ensures ReadRecord(lead + Unwords(Fields(r)) + tail) == Read(r, tail)
  {
    var ws := Fields(r);
    ReadUnwords(lead, ws, tail);
    ReadRecordOfWords(lead + Unwords(ws) + tail, ws, tail);
  }

  lemma ReadRecordAtEnd(s: string)
    requires AllSpace(s)
    ensures ReadRecord(s) == AtEnd
  {
    ReadWordsAtEnd(s, 6);
  }

  /** One turn of the load loop that pushes a record and goes on. */
  lemma DecodeRecordsStep(s: string, rec: Record, rest: string, more: seq<Record>)
    requires ReadRecord(s) == Read(rec, rest) && rest != []
    requires DecodeRecords(rest[1..]) == Some(more)
    ensures DecodeRecords(s) == Some([rec] + more)
  {
  }

  /** The first record line of a text of record lines, split off. */
  lemma SplitFirstLine(lead: string, rs: seq<Record>, more: string)
    requires rs != []
    ensures lead + RecordsText(rs) + more
         == lead + Unwords(Fields(rs[0])) + ("\n" + RecordsText(rs[1..]) + more)
  {
    var u := Unwords(Fields(rs[0]));
    var r := RecordsText(rs[1..]);
    ConsSlice(rs);
    RecordsTextAppend([rs[0]], rs[1..]);
    assert [rs[0]][..0] == [];
    EmptyLeft(RecordText(rs[0]));
    assert RecordsText(rs) == (u + "\n") + r;
    Assoc(u, "\n", r);
    Assoc(lead, u, "\n" + r);
    Assoc(lead + u, "\n" + r, more);
  }

  /** The load loop reads back every record line written, in order. */
  lemma {:induction false} DecodeRecordsText(lead: string, rs: seq<Record>)
    requires AllSpace(lead) && RecordsEncodable(rs)
    ensures DecodeRecords(lead + RecordsText(rs)) == Some(rs)
    decreases |rs|, 1
  {
    if rs == [] {
      assert lead + RecordsText(rs) == lead;
      ReadRecordAtEnd(lead);
    } else {
      DecodeFirstLine(lead, rs);
    }
  }

  lemma {:induction false} DecodeFirstLine(lead: string, rs: seq<Record>)
    requires AllSpace(lead) && RecordsEncodable(rs) && rs != []
    ensures DecodeRecords(lead + RecordsText(rs)) == Some(rs)
    decreases |rs|, 0
  {
    var r := RecordsText(rs[1..]);
    FirstLineReadAlone(lead, rs);
    DropNewlineAlone(r);
    EncodableTail(rs);
    DecodeRecordsText("", rs[1..]);
    DecodeRecordsStep(lead + RecordsText(rs), rs[0], "\n" + r, rs[1..]);
    ConsSlice(rs);
  }

  lemma FirstLineReadAlone(lead: string, rs: seq<Record>)
    requires AllSpace(lead) && RecordsEncodable(rs) && rs != []
    ensures ReadRecord(lead + RecordsText(rs)) == Read(rs[0], "\n" + RecordsText(rs[1..]))
  {
    FirstLineRead(lead, rs, "");
    EmptyLeft(lead + RecordsText(rs));
    EmptyLeft("\n" + RecordsText(rs[1..]));
  }

  /** The first record line of a text of record lines reads back as its record. */
  lemma FirstLineRead(lead: string, rs: seq<Record>, more: string)
    requires AllSpace(lead) && RecordsEncodable(rs) && rs != []
    ensures ReadRecord(lead + RecordsText(rs) + more) == Read(rs[0], "\n" + RecordsText(rs[1..]) + more)
  {
    SplitFirstLine(lead, rs, more);
    EncodableTail(rs);
    FieldsReadAfter(lead, rs[0], "\n" + RecordsText(rs[1..]) + more);
  }

  /** Loading what a backup wrote gives back the same size, master password and records. */
  lemma DecodeEncode(cfg: Config)
    requires Encodable(cfg)
    ensures Decode(Encode(cfg)) == Some(cfg)
  {
    DecodeRecordsText("\n", cfg.records);
    DecodeAfterHeader(cfg.rows, cfg.cols, cfg.master, RecordsText(cfg.records), cfg.records);
  }

  /** The header reads back as written, and the records are read from the newline after it. */
  lemma DecodeAfterHeader(rows: nat, cols: nat, master: string, body: string, recs: seq<Record>)
    requires IsToken(master) && DecodeRecords("\n" + body) == Some(recs)
    ensures Decode(Header(rows, cols, master) + body) == Some(Config(rows, cols, master, recs))
  {
    var dims := [IntToString(rows), IntToString(cols)];
    var afterDims := "\n" + master + "\n" + body;
    HeaderSplit(dims, master, body);
    ReadUnwords("", dims, afterDims);
    ReadUnwords("\n", [master], "\n" + body);
  }

  /** The records of a text whose last record line lacks its newline: every
      record but that last one. */
  lemma {:induction false} DecodeRecordsUnterminated(lead: string, rs: seq<Record>, last: Record)
    requires AllSpace(lead) && RecordsEncodable(rs)
    requires IsToken(last.passwd) && IsToken(last.msg)
    ensures DecodeRecords(lead + RecordsText(rs) + Unwords(Fields(last))) == Some(rs)
    decreases |rs|, 1
  {
    if rs == [] {
      LastLineDropped(lead, last);
    } else {
      DecodeUnterminatedFirstLine(lead, rs, last);
    }
  }

  /** A record line that ends the text without its newline is not applied. */
  lemma LastLineDropped(lead: string, last: Record)
    requires AllSpace(lead) && IsToken(last.passwd) && IsToken(last.msg)
    ensures DecodeRecords(lead + RecordsText([]) + Unwords(Fields(last))) == Some([])
  {
    var u := Unwords(Fields(last));
    NoRecordsText(lead, u);
    FieldsReadAfter(lead, last, "");
    DecodeRecordsAtEnd(lead + u + "", last);
  }

  /** A record followed directly by the end of the file: `fgetc` returns `EOF` and the loop ends. */
  lemma DecodeRecordsAtEnd(s: string, rec: Record)
    requires ReadRecord(s) == Read(rec, [])
    ensures DecodeRecords(s) == Some([])
  {
  }

  lemma {:induction false} DecodeUnterminatedFirstLine(lead: string, rs: seq<Record>, last: Record)
    requires AllSpace(lead) && RecordsEncodable(rs) && rs != []
    requires IsToken(last.passwd) && IsToken(last.msg)
    ensures DecodeRecords(lead + RecordsText(rs) + Unwords(Fields(last))) == Some(rs)
    decreases |rs|, 0
  {
    var r := RecordsText(rs[1..]);
    var u := Unwords(Fields(last));
    FirstLineRead(lead, rs, u);
    DropNewline(r, u);
    EncodableTail(rs);
    DecodeRecordsUnterminated("", rs[1..], last);
    DecodeRecordsStep(lead + RecordsText(rs) + u, rs[0], "\n" + r + u, rs[1..]);
    ConsSlice(rs);
  }

  /** A file that ends right after the last record, without the newline the
      backup writes, loses that record on load: `fgetc` meets the end of file
      and the loop stops before pushing it. */
  lemma DecodeWithoutFinalNewline(cfg: Config)
    requires Encodable(cfg) && cfg.records != []
    ensures var text := Encode(cfg);
            Decode(text[..|text| - 1]) == Some(cfg.(records := cfg.records[..|cfg.records| - 1]))
  {
    var n := |cfg.records|;
    var init := cfg.records[..n - 1];
    var last := cfg.records[n - 1];
    var u := Unwords(Fields(last));
    var header := Header(cfg.rows, cfg.cols, cfg.master);
    EncodeLast(cfg);
    EncodeWithoutNewline(header, RecordsText(init), u);
    EncodableInit(cfg.records);
    DecodeRecordsUnterminated("\n", init, last);
    DecodeAfterHeader(cfg.rows, cfg.cols, cfg.master, RecordsText(init) + u, init);
  }

  // ------------------------------------------------ concatenation identities
  //
  // Each lemma below only regroups a concatenation (or a slice of one) into
  // the shape a caller above hands to the reading lemmas; none states
  // anything about the format itself.

  /** Re-associates: dropping the newline that ends a record line. */
  lemma DropNewlineAlone(r: string)
    ensures |"\n" + r| > 0 && ("\n" + r)[1..] == "" + r
  {
  }

  /** Re-associates: dropping the newline that ends a record line, with text after the lines. */
  lemma DropNewline(r: string, more: string)
    ensures |"\n" + r + more| > 0 && ("\n" + r + more)[1..] == "" + r + more
  {
  }

  /** Re-associates the header for its two reads: the size words, then the master password. */
  lemma HeaderSplit(dims: seq<string>, master: string, body: string)
    ensures Unwords(dims) + "\n" + master + "\n" + body == "" + Unwords(dims) + ("\n" + master + "\n" + body)
    ensures "\n" + master + "\n" + body == "\n" + Unwords([master]) + ("\n" + body)
  {
  }

  /** Re-associates: no record lines before an unterminated one. */
  lemma NoRecordsText(lead: string, u: string)
    ensures lead + RecordsText([]) + u == lead + u + ""
  {
    EmptyLeft(u);
    EmptyLeft(lead + u);
  }

  /** Re-associates: the backup text less its final newline. */
  lemma EncodeWithoutNewline(header: string, init: string, u: string)
    ensures var text := header + (init + (u + "\n"));
            |text| > 0 && text[..|text| - 1] == header + (init + u)
    ensures "\n" + (init + u) == "\n" + init + u
  {
  }

  /** Readable records stay readable without the last one. */
  lemma EncodableInit(rs: seq<Record>)
    requires RecordsEncodable(rs) && rs != []
    ensures RecordsEncodable(rs[..|rs| - 1])
    ensures IsToken(rs[|rs| - 1].passwd) && IsToken(rs[|rs| - 1].msg)
  {
  }

  /** Re-associates: the backup text with its last record line split off. */
  lemma EncodeLast(cfg: Config)
    requires cfg.records != []
    ensures var n := |cfg.records|;
            Encode(cfg) == Header(cfg.rows, cfg.cols, cfg.master)
              + (RecordsText(cfg.records[..n - 1]) + (Unwords(Fields(cfg.records[n - 1])) + "\n"))
  {
  }
}
