/**
 * The SQLite insider store (`InsiderDB` in db.py), with the database held
 * in memory: named tables of text rows and named unique indexes.
 * Statements execute one at a time and every write is committed at once.
 */
module InsiderStore {
  import opened Base
  import opened Text
  import IsoDates

  type Row = seq<string>

  datatype Table = Table(columns: seq<string>, rows: seq<Row>)

  /** `CREATE UNIQUE INDEX name ON table (column)`. */
  datatype UniqueIndex = UniqueIndex(table: string, column: string)

  datatype Database = Database(tables: map<string, Table>, indexes: map<string, UniqueIndex>)

  const Insiders := "insiders"
  const InsidersIndex := "insidx"
  const Accession := "ACCESSION_NUMBER"
  /** The column the two date-window selections filter on. */
  const DateColumn := "Date"

  /** The columns of the `insiders` table, in declaration order. */
  const InsiderColumns: seq<string> := [
    "ACCESSION_NUMBER", "NONDERIV_TRANS_SK", "SECURITY_TITLE", "TRANS_DATE",
    "DEEMED_EXECUTION_DATE", "TRANS_FORM_TYPE", "TRANS_CODE", "EQUITY_SWAP_INVOLVED",
    "TRANS_TIMELINESS", "TRANS_SHARES", "TRANS_PRICEPERSHARE", "TRANS_ACQUIRED_DISP_CD",
    "SHRS_OWND_FOLWNG_TRANS", "VALU_OWND_FOLWNG_TRANS", "DIRECT_INDIRECT_OWNERSHIP",
    "NATURE_OF_OWNERSHIP", "TRANSDOLLARS", "FILING_DATE", "NO_SECURITIES_OWNED",
    "DOCUMENT_TYPE", "ISSUERCIK", "ISSUERNAME", "ISSUERTRADINGSYMBOL", "RPTOWNERCIK",
    "RPTOWNERNAME", "RPTOWNER_RELATIONSHIP", "RPTOWNER_TITLE", "RPTOWNER_TXT", "FILE_NUMBER"]

  // ---------------------------------------------------------------- schema

  /** Position of a column by name. */
  function ColumnIndex(columns: seq<string>, name: string): (r: Option<nat>)
    ensures r.Some? <==> name in columns
    ensures r.Some? ==> r.value < |columns| && columns[r.value] == name
    decreases |columns|
  {
    if |columns| == 0 then None
    else if columns[0] == name then Some(0)
    else match ColumnIndex(columns[1..], name)
      case None => None
      case Some(i) => Some(i + 1)
  }

  /** No two rows share a value in column `c`. */
  predicate UniqueOn(rows: seq<Row>, c: nat) {
    forall i, j :: 0 <= i < j < |rows| && c < |rows[i]| && c < |rows[j]| ==> rows[i][c] != rows[j][c]
  }

  predicate TableOk(t: Table) {
    forall r :: r in t.rows ==> |r| == |t.columns|
  }

  predicate IndexHolds(db: Database, ix: UniqueIndex) {
    ix.table in db.tables && ix.column in db.tables[ix.table].columns
    && UniqueOn(db.tables[ix.table].rows, ColumnIndex(db.tables[ix.table].columns, ix.column).value)
  }

  /** What SQLite guarantees of any database file: full rows, and every unique index holds. */
  predicate WellFormed(db: Database) {
    && (forall name :: name in db.tables ==> TableOk(db.tables[name]))
    && (forall name :: name in db.indexes ==> IndexHolds(db, db.indexes[name]))
  }

  /** `CREATE TABLE IF NOT EXISTS insiders (...)` on its own. */
  function WithInsidersTable(db: Database): (db1: Database)
    ensures db1.indexes == db.indexes && Insiders in db1.tables
    ensures Insiders in db.tables ==> db1 == db
  {
    if Insiders in db.tables then db
    else db.(tables := db.tables[Insiders := Table(InsiderColumns, [])])
  }

  /** `newinsidertable`'s two statements, both `IF NOT EXISTS`. */
  function CreateInsiderSchema(db: Database): (r: Result<Database>)
    ensures r.Err? ==> Insiders in db.tables
  {
    var db1 := WithInsidersTable(db);
    if InsidersIndex in db1.indexes then Ok(db1)
    else
      var t := db1.tables[Insiders];
      if Accession !in t.columns then Err(NoSuchColumn(Accession))
      else if !UniqueOn(t.rows, ColumnIndex(t.columns, Accession).value) then Err(UniqueConstraint(InsidersIndex))
      else Ok(db1.(indexes := db1.indexes[InsidersIndex := UniqueIndex(Insiders, Accession)]))
  }

  lemma TableStepWellFormed(db: Database)
    requires WellFormed(db)
    ensures WellFormed(WithInsidersTable(db))
  {
    if Insiders !in db.tables {
      var db1 := WithInsidersTable(db);
      forall name | name in db1.tables ensures TableOk(db1.tables[name]) {
        if name != Insiders { assert db1.tables[name] == db.tables[name]; }
      }
      forall name | name in db1.indexes ensures IndexHolds(db1, db1.indexes[name]) {
        var ix := db.indexes[name];
        assert IndexHolds(db, ix);
        assert db1.tables[ix.table] == db.tables[ix.table];
      }
    }
  }

  /** Creating the schema keeps the database well formed and leaves the index in place. */
  lemma SchemaWellFormed(db: Database)
    requires WellFormed(db)
    requires CreateInsiderSchema(db).Ok?
    ensures WellFormed(CreateInsiderSchema(db).value)
    ensures InsidersIndex in CreateInsiderSchema(db).value.indexes
    ensures Insiders in CreateInsiderSchema(db).value.tables
  {
    var db1 := WithInsidersTable(db);
    TableStepWellFormed(db);
    if InsidersIndex !in db1.indexes {
      var ix := UniqueIndex(Insiders, Accession);
      assert IndexHolds(db1, ix);
      AddIndexWellFormed(db1, InsidersIndex, ix);
    }
  }

  /** Adding an index that holds keeps a database well formed. */
  lemma AddIndexWellFormed(db: Database, name: string, ix: UniqueIndex)
    requires WellFormed(db) && IndexHolds(db, ix)
    ensures WellFormed(db.(indexes := db.indexes[name := ix]))
  {
    var db1 := db.(indexes := db.indexes[name := ix]);
    forall n | n in db1.indexes ensures IndexHolds(db1, db1.indexes[n]) {
      if n != name { assert IndexHolds(db, db.indexes[n]); }
    }
  }

  /** On a database without either object, the table is created empty and indexed on the accession number. */
  lemma SchemaOnFreshDatabase(db: Database)
    requires Insiders !in db.tables && InsidersIndex !in db.indexes
    ensures CreateInsiderSchema(db) == Ok(Database(
      db.tables[Insiders := Table(InsiderColumns, [])],
      db.indexes[InsidersIndex := UniqueIndex(Insiders, Accession)]))
  {
  }

  /** Running `newinsidertable` a second time changes nothing. */
  lemma SchemaIdempotent(db: Database)
    requires CreateInsiderSchema(db).Ok?
    ensures CreateInsiderSchema(CreateInsiderSchema(db).value) == CreateInsiderSchema(db)
  {
  }

  // ---------------------------------------------------------------- insert or ignore

  /** Some row of `t` already holds `row`'s value in `column`. */
  predicate Clash(t: Table, column: string, row: Row) {
    column in t.columns &&
    var c := ColumnIndex(t.columns, column).value;
    exists r :: r in t.rows && c < |r| && c < |row| && r[c] == row[c]
  }

  /** Some unique index on `table` would be violated by `row`. */
  predicate Conflicts(db: Database, table: string, row: Row)
    requires table in db.tables
  {
    exists name :: name in db.indexes && db.indexes[name].table == table
      && Clash(db.tables[table], db.indexes[name].column, row)
  }

  /** `INSERT OR IGNORE INTO table VALUES (row)`. */
  function Insert(db: Database, table: string, row: Row): (r: Result<Database>)
    ensures r.Err? <==> table !in db.tables || |row| != |db.tables[table].columns|
    ensures r.Ok? ==> r.value.indexes == db.indexes
    ensures r.Ok? ==> r.value.tables.Keys == db.tables.Keys
    ensures r.Ok? ==> forall other :: other in db.tables && other != table ==> r.value.tables[other] == db.tables[other]
    ensures r.Ok? ==> r.value.tables[table].columns == db.tables[table].columns
    ensures r.Ok? ==> r.value.tables[table].rows in {db.tables[table].rows, db.tables[table].rows + [row]}
    ensures r.Ok? ==> (r.value.tables[table].rows == db.tables[table].rows + [row] <==> !Conflicts(db, table, row))
    ensures r.Ok? && Conflicts(db, table, row) ==> r.value == db
  {
    if table !in db.tables then Err(NoSuchTable(table))
    else
      var t := db.tables[table];
      if |row| != |t.columns| then Err(ColumnCount(|t.columns|, |row|))
      else if Conflicts(db, table, row) then Ok(db)
      else Ok(db.(tables := db.tables[table := t.(rows := t.rows + [row])]))
  }

  /** Appending a row that clashes with no row on column `c` keeps the column unique. */
  lemma AppendKeepsUnique(rows: seq<Row>, row: Row, c: nat)
    requires UniqueOn(rows, c)
    requires forall r :: r in rows && c < |r| && c < |row| ==> r[c] != row[c]
    ensures UniqueOn(rows + [row], c)
  {
    var rows1 := rows + [row];
    forall i, j | 0 <= i < j < |rows1| && c < |rows1[i]| && c < |rows1[j]|
      ensures rows1[i][c] != rows1[j][c]
    {
      if j == |rows| {
        assert rows1[i] in rows;
      } else {
        assert rows1[i] == rows[i] && rows1[j] == rows[j];
      }
    }
  }

  /** Inserting keeps every unique index intact. */
  lemma InsertWellFormed(db: Database, table: string, row: Row)
    requires WellFormed(db)
    requires Insert(db, table, row).Ok?
    ensures WellFormed(Insert(db, table, row).value)
  {
    var db1 := Insert(db, table, row).value;
    if !Conflicts(db, table, row) {
      var t := db.tables[table];
      var t1 := t.(rows := t.rows + [row]);
      assert db1 == db.(tables := db.tables[table := t1]);
      forall name | name in db1.tables ensures TableOk(db1.tables[name]) {
        if name != table { assert TableOk(db.tables[name]); }
        else { assert TableOk(t); }
      }
      forall name | name in db1.indexes ensures IndexHolds(db1, db1.indexes[name]) {
        var ix := db.indexes[name];
        assert IndexHolds(db, ix);
        if ix.table == table {
          assert !Clash(t, ix.column, row);
          AppendKeepsIndex(db, table, t1, row, ix);
        } else {
          assert db1.tables[ix.table] == db.tables[ix.table];
        }
      }
    }
  }

  /** One index on the table that received a non-clashing row still holds after the append. */
  lemma AppendKeepsIndex(db: Database, table: string, t1: Table, row: Row, ix: UniqueIndex)
    requires table in db.tables && IndexHolds(db, ix) && ix.table == table
    requires t1 == db.tables[table].(rows := db.tables[table].rows + [row])
    requires !Clash(db.tables[table], ix.column, row)
    ensures IndexHolds(db.(tables := db.tables[table := t1]), ix)
  {
    var t := db.tables[table];
    AppendKeepsUnique(t.rows, row, ColumnIndex(t.columns, ix.column).value);
  }

  /** The `insiders` table carries its unique index on the accession number. */
  predicate InsidersKeyed(db: Database) {
    InsidersIndex in db.indexes && db.indexes[InsidersIndex] == UniqueIndex(Insiders, Accession)
  }

  /** The only unique index on `insiders` is the one `newinsidertable` creates. */
  predicate OnlyInsidersIndex(db: Database) {
    forall name :: name in db.indexes && db.indexes[name].table == Insiders ==> name == InsidersIndex
  }

  /** A second insert of the same accession number is a no-op: insert-or-ignore never overwrites. */
  lemma SecondInsertIgnored(db: Database, first: Row, second: Row)
    requires InsidersKeyed(db) && OnlyInsidersIndex(db)
    requires Insiders in db.tables && db.tables[Insiders].columns == InsiderColumns
    requires Insert(db, Insiders, first).Ok?
    requires |second| == |first| && second[0] == first[0]
    ensures Insert(Insert(db, Insiders, first).value, Insiders, second) == Insert(db, Insiders, first)
  {
    var db1 := Insert(db, Insiders, first).value;
    var t, t1 := db.tables[Insiders], db1.tables[Insiders];
    assert ColumnIndex(InsiderColumns, Accession) == Some(0);
    if Conflicts(db, Insiders, first) {
      var name :| name in db.indexes && db.indexes[name].table == Insiders
        && Clash(t, db.indexes[name].column, first);
      assert name == InsidersIndex;
      var r :| r in t.rows && 0 < |r| && 0 < |first| && r[0] == first[0];
      assert r in t1.rows;
    } else {
      assert t1.rows == t.rows + [first];
      assert first in t1.rows;
    }
    assert Clash(t1, Accession, second);
    assert Conflicts(db1, Insiders, second);
  }

  /** In a well-formed database whose `insiders` table is indexed, no two rows share an accession number. */
  lemma OneRowPerAccession(db: Database, i: nat, j: nat)
    requires WellFormed(db) && InsidersKeyed(db)
    requires db.tables[Insiders].columns == InsiderColumns
    requires i < j < |db.tables[Insiders].rows|
    ensures db.tables[Insiders].rows[i][0] != db.tables[Insiders].rows[j][0]
  {
    assert IndexHolds(db, db.indexes[InsidersIndex]);
    assert ColumnIndex(InsiderColumns, Accession) == Some(0);
    var rows := db.tables[Insiders].rows;
    assert rows[i] in rows && rows[j] in rows;
  }

  // ---------------------------------------------------------------- date windows

  /** `Date BETWEEN lo AND hi` on one row: both ends inclusive, compared as text. */
  predicate Between(row: Row, c: nat, lo: string, hi: string) {
    c < |row| && TextLe(lo, row[c]) && TextLe(row[c], hi)
  }

  /** The rows of `rows` that pass the BETWEEN test, in table order. */
  function FilterBetween(rows: seq<Row>, c: nat, lo: string, hi: string): (r: seq<Row>)
    ensures forall row :: row in r <==> row in rows && Between(row, c, lo, hi)
    ensures forall row :: multiset(r)[row] == if Between(row, c, lo, hi) then multiset(rows)[row] else 0
    ensures |r| <= |rows|
    decreases |rows|
  {
    if rows == [] then []
    else
      var rest := FilterBetween(rows[1..], c, lo, hi);
      assert forall row :: row in rows <==> row == rows[0] || row in rows[1..];
      assert rows == [rows[0]] + rows[1..];
      assert multiset(rows) == multiset{rows[0]} + multiset(rows[1..]);
      if Between(rows[0], c, lo, hi) then [rows[0]] + rest else rest
  }

  /**
   * The selection keeps table order: a row added at the end of the table
   * comes at the end of the result, when it is selected at all.
   */
  lemma {:induction false} FilterBetweenAppend(rows: seq<Row>, row: Row, c: nat, lo: string, hi: string)
    ensures FilterBetween(rows + [row], c, lo, hi)
      == FilterBetween(rows, c, lo, hi) + (if Between(row, c, lo, hi) then [row] else [])
    decreases |rows|
  {
    if rows == [] {
      assert [] + [row] == [row];
      assert [row][1..] == [];
    } else {
      assert (rows + [row])[0] == rows[0];
      assert (rows + [row])[1..] == rows[1..] + [row];
      FilterBetweenAppend(rows[1..], row, c, lo, hi);
    }
  }

  /** `SELECT * FROM table WHERE Date BETWEEN date(lo) AND date(hi)`. */
  function SelectBetween(db: Database, table: string, lo: string, hi: string): (r: Result<seq<Row>>)
    ensures r.Err? <==> table !in db.tables || DateColumn !in db.tables[table].columns
  {
    if table !in db.tables then Err(NoSuchTable(table))
    else
      var t := db.tables[table];
      match ColumnIndex(t.columns, DateColumn)
      case None => Err(NoSuchColumn(DateColumn))
      case Some(c) => Ok(FilterBetween(t.rows, c, lo, hi))
  }

  /** What `selectndays(table, bdate, ndays)` returns. */
  function NDaysWindow(db: Database, table: string, bdate: string, ndays: int): Result<seq<Row>> {
    match IsoDates.Parse(bdate)
    case None => Err(ValueError)
    case Some(bd) =>
      match IsoDates.AddDays(bd, ndays + 1)
      case None => Err(OverflowError)
      case Some(ed) => SelectBetween(db, table, IsoDates.Format(bd), IsoDates.Format(ed))
  }

  /** What `selectdays(table, sdate, edate)` returns. */
  function DaysRange(db: Database, table: string, sdate: string, edate: string): Result<seq<Row>> {
    match IsoDates.Parse(sdate)
    case None => Err(ValueError)
    case Some(sd) =>
      match IsoDates.Parse(edate)
      case None => Err(ValueError)
      case Some(ed) => SelectBetween(db, table, IsoDates.Format(sd), IsoDates.Format(ed))
  }

  /** A row whose date is a valid ISO date passes BETWEEN exactly when the date lies between the bounds' dates. */
  lemma BetweenByDate(row: Row, c: nat, lo: IsoDates.Date, hi: IsoDates.Date, e: IsoDates.Date)
    requires IsoDates.Valid(lo) && IsoDates.Valid(hi)
    requires c < |row| && IsoDates.Parse(row[c]) == Some(e)
    ensures Between(row, c, IsoDates.Format(lo), IsoDates.Format(hi))
      <==> IsoDates.Ordinal(lo) <= IsoDates.Ordinal(e) <= IsoDates.Ordinal(hi)
  {
    IsoDates.FormatParse(row[c]);
    IsoDates.FormatOrder(lo, e);
    IsoDates.FormatOrder(e, hi);
  }

  /**
   * `selectndays` returns exactly the table's rows dated from `bdate` through
   * `ndays + 1` days after it, both ends included.
   */
  lemma NDaysWindowByDate(db: Database, table: string, bdate: string, ndays: int, row: Row)
    requires NDaysWindow(db, table, bdate, ndays).Ok?
    requires row in db.tables[table].rows
    requires var c := ColumnIndex(db.tables[table].columns, DateColumn).value;
      c < |row| && IsoDates.Parse(row[c]).Some?
    ensures var bd := IsoDates.Parse(bdate).value;
      var e := IsoDates.Parse(row[ColumnIndex(db.tables[table].columns, DateColumn).value]).value;
      (row in NDaysWindow(db, table, bdate, ndays).value)
        <==> IsoDates.Ordinal(bd) <= IsoDates.Ordinal(e) <= IsoDates.Ordinal(bd) + ndays + 1
  {
    var bd := IsoDates.Parse(bdate).value;
    var ed := IsoDates.AddDays(bd, ndays + 1).value;
    var c := ColumnIndex(db.tables[table].columns, DateColumn).value;
    BetweenByDate(row, c, bd, ed, IsoDates.Parse(row[c]).value);
  }

  /** `selectndays` fails with OverflowError exactly when the end bound leaves years 1..9999. */
  lemma NDaysOverflow(db: Database, table: string, bdate: string, ndays: int)
    requires IsoDates.Parse(bdate).Some?
    ensures var bd := IsoDates.Parse(bdate).value;
      (NDaysWindow(db, table, bdate, ndays) == Err(OverflowError))
        <==> !(IsoDates.Ordinal(IsoDates.First) <= IsoDates.Ordinal(bd) + ndays + 1 <= IsoDates.Ordinal(IsoDates.Last))
  {
    IsoDates.AddDaysDefined(IsoDates.Parse(bdate).value, ndays + 1);
  }

  /** `selectdays` passes valid bounds through unchanged: the query uses the caller's own texts. */
  lemma DaysRangeVerbatim(db: Database, table: string, sdate: string, edate: string)
    requires IsoDates.Parse(sdate).Some? && IsoDates.Parse(edate).Some?
    ensures DaysRange(db, table, sdate, edate) == SelectBetween(db, table, sdate, edate)
  {
    IsoDates.FormatParse(sdate);
    IsoDates.FormatParse(edate);
  }

  /** `selectdays` returns exactly the rows dated from `sdate` through `edate`. */
  lemma DaysRangeByDate(db: Database, table: string, sdate: string, edate: string, row: Row)
    requires DaysRange(db, table, sdate, edate).Ok?
    requires row in db.tables[table].rows
    requires var c := ColumnIndex(db.tables[table].columns, DateColumn).value;
      c < |row| && IsoDates.Parse(row[c]).Some?
    ensures var e := IsoDates.Parse(row[ColumnIndex(db.tables[table].columns, DateColumn).value]).value;
      (row in DaysRange(db, table, sdate, edate).value)
        <==> IsoDates.Ordinal(IsoDates.Parse(sdate).value) <= IsoDates.Ordinal(e) <= IsoDates.Ordinal(IsoDates.Parse(edate).value)
  {
    var c := ColumnIndex(db.tables[table].columns, DateColumn).value;
    BetweenByDate(row, c, IsoDates.Parse(sdate).value, IsoDates.Parse(edate).value, IsoDates.Parse(row[c]).value);
  }

  /** The `insiders` table as created has no `Date` column, so both selections fail on it. */
  lemma InsidersHaveNoDateColumn(db: Database, lo: string, hi: string)
    requires Insiders in db.tables && db.tables[Insiders].columns == InsiderColumns
    ensures SelectBetween(db, Insiders, lo, hi) == Err(NoSuchColumn(DateColumn))
  {
    assert DateColumn !in InsiderColumns;
  }

  // ---------------------------------------------------------------- report

  /** One report line: `'"' + '","'.join(fields) + '"'`, nothing escaped. */
  function QuoteLine(fields: seq<string>): string {
    "\"" + Join(fields, "\",\"") + "\""
  }

  /** Position of the first `c` in `s`. */
  function FirstIndex(s: string, c: char): (k: nat)
    requires c in s
    ensures k < |s| && s[k] == c && c !in s[..k]
  {
    if s[0] == c then 0
    else
      var k := FirstIndex(s[1..], c) + 1;
      assert s[..k] == [s[0]] + s[1..][..k - 1];
      k
  }

  /**
   * Reading a report line back: a quoted field, then either the end or a
   * comma and the next quoted field. None where the line is not of that shape.
   */
  function ReadQuoted(line: string): (r: Option<seq<string>>)
    decreases |line|
  {
    if |line| == 0 || line[0] != '"' || '"' !in line[1..] then None
    else
      var body := line[1..];
      var k := FirstIndex(body, '"');
      var rest := body[k + 1..];
      if rest == [] then Some([body[..k]])
      else if rest[0] != ',' then None
      else match ReadQuoted(rest[1..])
        case None => None
        case Some(fs) => Some([body[..k]] + fs)
  }

  lemma ReadField(f: string, tail: string)
    requires '"' !in f
    ensures var line := "\"" + f + "\"" + tail;
      '"' in line[1..] && FirstIndex(line[1..], '"') == |f| && line[1..][..|f|] == f && line[1..][|f| + 1..] == tail
  {
    var line := "\"" + f + "\"" + tail;
    var body := line[1..];
    assert body == f + "\"" + tail;
    assert body[|f|] == '"';
    assert body[..|f|] == f;
  }

  lemma ReadOneField(f: string)
    requires '"' !in f
    ensures ReadQuoted(QuoteLine([f])) == Some([f])
  {
    var line := QuoteLine([f]);
    assert Join([f], "\",\"") == f;
    assert line == "\"" + f + "\"" + "";
    ReadField(f, "");
    var body := line[1..];
    assert '"' in body && FirstIndex(body, '"') == |f| && body[..|f|] == f && body[|f| + 1..] == [];
  }

  lemma ReadFirstField(f: string, rest: seq<string>)
    requires '"' !in f && |rest| >= 1
    ensures ReadQuoted(QuoteLine([f] + rest)) == match ReadQuoted(QuoteLine(rest))
      case None => None
      case Some(fs) => Some([f] + fs)
  {
    var fields := [f] + rest;
    assert fields[1..] == rest;
    assert Join(fields, "\",\"") == f + "\",\"" + Join(rest, "\",\"");
    var line := QuoteLine(fields);
    var tail := "," + QuoteLine(rest);
    assert line == "\"" + f + "\"" + tail;
    ReadField(f, tail);
    assert tail[1..] == QuoteLine(rest);
  }

  /** A report line reads back as its fields when no field contains a double quote. */
  lemma {:induction false} ReadQuoteLine(fields: seq<string>)
    requires |fields| >= 1
    requires forall i :: 0 <= i < |fields| ==> '"' !in fields[i]
    ensures ReadQuoted(QuoteLine(fields)) == Some(fields)
    decreases |fields|
  {
    if |fields| == 1 {
      ReadOneField(fields[0]);
      assert [fields[0]] == fields;
    } else {
      ReadQuoteLine(fields[1..]);
      ReadFirstField(fields[0], fields[1..]);
      assert [fields[0]] + fields[1..] == fields;
    }
  }

  /** Embedded quotes are not escaped: one field and two fields can print as the same line. */
  lemma QuotesNotEscaped()
    ensures QuoteLine(["a\",\"b"]) == QuoteLine(["a", "b"])
  {
    assert Join(["a", "b"], "\",\"") == "a" + "\",\"" + Join(["b"], "\",\"");
  }

  // ---------------------------------------------------------------- the connection

  /** `InsiderDB` once `dbconnect` has opened a database: the tables and indexes it holds. */
  class InsiderDB {
    var tables: map<string, Table>
    var indexes: map<string, UniqueIndex>

    function State(): Database
      reads this
    {
      Database(tables, indexes)
    }

    ghost predicate Valid()
      reads this
    {
      WellFormed(State())
    }

    /** `dbconnect(dbfile)`: a fresh ':memory:' database is `Database(map[], map[])`. */
    constructor Connect(db: Database)
      requires WellFormed(db)
      ensures Valid() && State() == db
    {
      tables := db.tables;
      indexes := db.indexes;
    }

    /** `insiderinsert(rec)`: insert-or-ignore one row into `insiders`. */
    method InsiderInsert(rec: Row) returns (failure: Option<Failure>)
      requires Valid()
      modifies this
      ensures Valid()
      ensures failure.None? ==> Insert(old(State()), Insiders, rec) == Ok(State())
      ensures failure.Some? ==> Insert(old(State()), Insiders, rec) == Err(failure.value) && State() == old(State())
    {
      var r := Insert(State(), Insiders, rec);
      match r {
        case Err(e) => failure := Some(e);
        case Ok(db) =>
          InsertWellFormed(State(), Insiders, rec);
          tables := db.tables;
          failure := None;
      }
    }

    /** `newinsidertable()`: create `insiders` and its unique index unless they exist. */
    method NewInsiderTable() returns (failure: Option<Failure>)
      requires Valid()
      modifies this
      ensures Valid()
      ensures failure.None? ==> CreateInsiderSchema(old(State())) == Ok(State())
      ensures failure.Some? ==> CreateInsiderSchema(old(State())) == Err(failure.value) && State() == old(State())
    {
      var db0 := State();
      // CREATE TABLE IF NOT EXISTS insiders (...)
      var db1 := WithInsidersTable(db0);
      tables := db1.tables;
      assert State() == db1;
      // CREATE UNIQUE INDEX IF NOT EXISTS insidx ON insiders ('ACCESSION_NUMBER')
      failure := None;
      if InsidersIndex !in indexes {
        var t := tables[Insiders];
        var c := ColumnIndex(t.columns, Accession);
        if c.None? {
          failure := Some(NoSuchColumn(Accession));
          assert CreateInsiderSchema(db0) == Err(NoSuchColumn(Accession));
        } else if !UniqueOn(t.rows, c.value) {
          failure := Some(UniqueConstraint(InsidersIndex));
          assert CreateInsiderSchema(db0) == Err(UniqueConstraint(InsidersIndex));
        } else {
          indexes := indexes[InsidersIndex := UniqueIndex(Insiders, Accession)];
          assert CreateInsiderSchema(db0) == Ok(State());
        }
      }
      if failure.None? {
        SchemaWellFormed(db0);
      }
    }

    /** `selectndays(tblname, bdate, ndays)`. */
    method SelectNDays(tblname: string, bdate: string, ndays: int) returns (r: Result<seq<Row>>)
      ensures r == NDaysWindow(State(), tblname, bdate, ndays)
    {
      var bd := IsoDates.Parse(bdate);
      if bd.None? { return Err(ValueError); }
      var ed := IsoDates.AddDays(bd.value, ndays + 1);
      if ed.None? { return Err(OverflowError); }
      var bds := IsoDates.Format(bd.value);
      var eds := IsoDates.Format(ed.value);
      r := SelectBetween(State(), tblname, bds, eds);
    }

    /** `selectdays(tblname, sdate, edate)`. */
    method SelectDays(tblname: string, sdate: string, edate: string) returns (r: Result<seq<Row>>)
      ensures r == DaysRange(State(), tblname, sdate, edate)
    {
      var sd := IsoDates.Parse(sdate);
      if sd.None? { return Err(ValueError); }
      var ed := IsoDates.Parse(edate);
      if ed.None? { return Err(ValueError); }
      r := SelectBetween(State(), tblname, IsoDates.Format(sd.value), IsoDates.Format(ed.value));
    }

    /** `reporttable(table, fp)`: the lines printed, a header of column names then one line per row. */
    method ReportTable(table: string) returns (r: Result<seq<string>>)
      ensures r.Err? <==> table !in tables
      ensures r.Ok? ==> |r.value| == 1 + |tables[table].rows|
      ensures r.Ok? ==> r.value[0] == QuoteLine(tables[table].columns)
      ensures r.Ok? ==> forall i :: 0 <= i < |tables[table].rows| ==> r.value[i + 1] == QuoteLine(tables[table].rows[i])
    {
      if table !in tables { return Err(NoSuchTable(table)); }
      var t := tables[table];
      var lines := [QuoteLine(t.columns)];
      var i := 0;
      while i < |t.rows|
        invariant 0 <= i <= |t.rows|
        invariant |lines| == 1 + i && lines[0] == QuoteLine(t.columns)
        invariant forall k :: 0 <= k < i ==> lines[k + 1] == QuoteLine(t.rows[k])
      {
        lines := lines + [QuoteLine(t.rows[i])];
        i := i + 1;
      }
      r := Ok(lines);
    }
  }
}
