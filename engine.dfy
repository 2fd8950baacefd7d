/** The embedded engine, seen from outside: a catalog of tables, each an
    ordered list of (name, type) columns and a list of rows, and the effect
    each kind of statement has on it. Whether the engine accepts a statement
    text, run against the database as it stands, is an oracle (`accepts`):
    it may turn a statement down for its syntax or for the data (a NOT NULL
    or UNIQUE violation). The effect the model gives a statement is its
    reading of the text that the wrapper builds. */
module Engine {
  import opened Wrappers
  import Text

  /** A stored value, one per SQLite storage class. */
  datatype Value = Null | Integer(i: int) | Real(r: real) | Txt(s: string) | Blob(bytes: seq<bv8>)

  /** A row with its implicit row identifier. */
  datatype Row = Row(rowid: int, cells: seq<Value>)

  /** A column as `PRAGMA table_info` reports it: its name and declared type. */
  datatype Column = Column(name: string, ctype: string)

  datatype Table = Table(columns: seq<Column>, rows: seq<Row>)

  /** The tables of one database file, by name. */
  type Catalog = map<string, Table>

  function ColumnNames(cols: seq<Column>): seq<string> {
    seq(|cols|, i requires 0 <= i < |cols| => cols[i].name)
  }

  predicate DistinctNames(cols: seq<Column>) {
    forall i, j :: 0 <= i < j < |cols| ==> cols[i].name != cols[j].name
  }

  /** What SQLite guarantees of every table: at least one column, distinct
      column names, and one cell per column in every row. */
  predicate WellFormedTable(t: Table) {
    && |t.columns| > 0
    && DistinctNames(t.columns)
    && forall r :: r in t.rows ==> |r.cells| == |t.columns|
  }

  predicate WellFormed(cat: Catalog) {
    forall name :: name in cat ==> WellFormedTable(cat[name])
  }

  /** The position of the column called `name`. */
  function ColumnIndex(cols: seq<Column>, name: string): (r: Option<nat>)
    ensures r.Some? ==> r.value < |cols| && cols[r.value].name == name
    ensures r.Some? ==> forall j :: 0 <= j < r.value ==> cols[j].name != name
    ensures r.None? <==> name !in ColumnNames(cols)
    decreases |cols|
  {
    if cols == [] then None
    else
      assert ColumnNames(cols) == [cols[0].name] + ColumnNames(cols[1..]);
      if cols[0].name == name then Some(0)
      else match ColumnIndex(cols[1..], name)
      case None => None
      case Some(i) => Some(i + 1)
  }

  /** A name in a SELECT list: a column of the table, or ROWID when no column
      has that name. */
  predicate Resolvable(t: Table, name: string) {
    name in ColumnNames(t.columns) || Text.Upper(name) == "ROWID"
  }

  function Cell(t: Table, r: Row, name: string): Value {
    match ColumnIndex(t.columns, name)
    case Some(i) => if i < |r.cells| then r.cells[i] else Null
    case None => Integer(r.rowid)
  }

  function Project(t: Table, r: Row, names: seq<string>): seq<Value> {
    seq(|names|, i requires 0 <= i < |names| => Cell(t, r, names[i]))
  }

  /** The rows of `SELECT names FROM table`, in storage order. */
  function Select(t: Table, names: seq<string>): seq<seq<Value>> {
    seq(|t.rows|, i requires 0 <= i < |t.rows| => Project(t, t.rows[i], names))
  }

  /** The row identifier SQLite gives a new row: one more than the largest. */
  function NextRowid(rows: seq<Row>): int
    decreases |rows|
  {
    if rows == [] then 1
    else
      var n := NextRowid(rows[..|rows| - 1]);
      var last := rows[|rows| - 1].rowid + 1;
      if n < last then last else n
  }

  /** The rows a DELETE keeps, in their order. */
  function Keep(rows: seq<Row>, doomed: Row -> bool): (r: seq<Row>)
    ensures forall x :: x in r ==> x in rows && !doomed(x)
    decreases |rows|
  {
    if rows == [] then []
    else (if doomed(rows[0]) then [] else [rows[0]]) + Keep(rows[1..], doomed)
  }

  /** What a statement does to the catalog when it runs. */
  datatype Effect =
    | NoEffect                                              // PRAGMA
    | CreateTable(name: string, columns: seq<Column>)       // CREATE TABLE
    | DropTable(name: string)                               // DROP TABLE IF EXISTS
    | RenameTable(oldName: string, newName: string)         // ALTER TABLE .. RENAME TO
    | AddColumn(table: string, column: Column)              // ALTER TABLE .. ADD COLUMN
    | InsertRow(table: string, cells: seq<Value>)           // INSERT INTO .. VALUES
    | DeleteRows(table: string, doomed: Row -> bool)        // DELETE FROM .. [WHERE]
    | CopyRows(into: string, source: string, names: seq<string>)  // INSERT INTO .. SELECT

  /** The new catalog, or None when the engine refuses the statement whatever
      its text: a name clash, a missing table or column, a wrong arity. */
  function Apply(cat: Catalog, e: Effect): Option<Catalog> {
    match e
    case NoEffect => Some(cat)
    case CreateTable(name, cols) =>
      if name in cat || |cols| == 0 || !DistinctNames(cols) then None
      else Some(cat[name := Table(cols, [])])
    case DropTable(name) => Some(cat - {name})
    case RenameTable(oldName, newName) =>
      if oldName !in cat || newName in cat then None
      else Some((cat - {oldName})[newName := cat[oldName]])
    case AddColumn(table, col) =>
      if table !in cat || col.name in ColumnNames(cat[table].columns) then None
      else
        var t := cat[table];
        var rows := seq(|t.rows|, i requires 0 <= i < |t.rows| => Row(t.rows[i].rowid, t.rows[i].cells + [Null]));
        Some(cat[table := Table(t.columns + [col], rows)])
    case InsertRow(table, cells) =>
      if table !in cat || |cells| != |cat[table].columns| then None
      else
        var t := cat[table];
        Some(cat[table := Table(t.columns, t.rows + [Row(NextRowid(t.rows), cells)])])
    case DeleteRows(table, doomed) =>
      if table !in cat then None
      else Some(cat[table := Table(cat[table].columns, Keep(cat[table].rows, doomed))])
    case CopyRows(into, source, names) =>
      if into !in cat || source !in cat || |names| != |cat[into].columns| then None
      else if !(forall n :: n in names ==> Resolvable(cat[source], n)) then None
      else
        var s := cat[source];
        var copied := seq(|s.rows|, i requires 0 <= i < |s.rows| => Row(s.rows[i].rowid, Project(s, s.rows[i], names)));
        Some(cat[into := Table(cat[into].columns, cat[into].rows + copied)])
  }

  /** `DB.execute`: the statement succeeds when the engine accepts its text
      and its effect applies; a statement that fails changes nothing. */
  function Exec(cat: Catalog, accepts: (Catalog, string) -> bool, stmt: string, e: Effect): (bool, Catalog) {
    var next := Apply(cat, e);
    if accepts(cat, stmt) && next.Some? then (true, next.value) else (false, cat)
  }

  /** `DB.query` of a projection: the rows, or None (Python's False) when the
      engine refuses the statement or a name does not resolve. */
  function Query(cat: Catalog, accepts: (Catalog, string) -> bool, stmt: string, table: string, names: seq<string>): Option<seq<seq<Value>>> {
    if accepts(cat, stmt) && table in cat && forall n :: n in names ==> Resolvable(cat[table], n)
    then Some(Select(cat[table], names))
    else None
  }

  /** An accepted CREATE of a new table with distinct columns adds it,
      empty. */
  lemma ExecCreate(cat: Catalog, accepts: (Catalog, string) -> bool, stmt: string, name: string, cols: seq<Column>)
    requires accepts(cat, stmt) && name !in cat && |cols| > 0 && DistinctNames(cols)
    ensures Exec(cat, accepts, stmt, CreateTable(name, cols)) == (true, cat[name := Table(cols, [])])
  {
  }

  /** Every statement keeps SQLite's table invariants. */
  lemma ApplyPreservesWellFormed(cat: Catalog, e: Effect)
    requires WellFormed(cat)
    ensures Apply(cat, e).Some? ==> WellFormed(Apply(cat, e).value)
  {
    match e
    case NoEffect =>
    case CreateTable(name, cols) =>
    case DropTable(name) =>
    case RenameTable(oldName, newName) =>
    case AddColumn(table, col) =>
      if Apply(cat, e).Some? {
        var t := cat[table];
        var cols := t.columns + [col];
        forall i, j | 0 <= i < j < |cols| ensures cols[i].name != cols[j].name {
          if j == |t.columns| {
            assert ColumnNames(t.columns)[i] == cols[i].name;
          }
        }
      }
    case InsertRow(table, cells) =>
    case DeleteRows(table, doomed) =>
    case CopyRows(into, source, names) =>
  }

  // ---------------------------------------------------------------------
  // Catalog introspection

  /** What `Columns.fields` returns: the `(None,)` marker, a list of names, or
      a list of (name, type) pairs. */
  datatype FieldList = Missing | NameList(names: seq<string>) | TypeList(pairs: seq<Column>)

  /** `Columns.fields(table, types)`: the marker for a missing table, otherwise
      the columns in catalog order, as names or as (name, type) pairs. */
  function Fields(cat: Catalog, table: string, types: bool): (r: FieldList)
    ensures r.Missing? <==> table !in cat
    ensures r.NameList? ==> !types && |r.names| == |cat[table].columns|
    ensures r.NameList? ==> forall i :: 0 <= i < |r.names| ==> r.names[i] == cat[table].columns[i].name
    ensures r.TypeList? ==> types && r.pairs == cat[table].columns
  {
    if table !in cat then Missing
    else if !types then NameList(ColumnNames(cat[table].columns))
    else TypeList(cat[table].columns)
  }
}
