/** The column manager (`lite/_columns.py`): `add` issues one ALTER
    statement; `remove` reads the other columns, drops the table and creates
    it again; `primary_key` renames the table aside, creates the new one with
    the key first, copies the rows over and drops or restores the old one.
    `fields` is `Engine.Fields`. */
module Columns {
  import opened Wrappers
  import opened Engine
  import Text
  import Lite
  import Tables
  import Records

  // ---------------------------------------------------------------------
  // add

  function AddStatement(table: string, column: string, unique: bool, nullable: bool, ftype: string): string {
    "ALTER TABLE " + table + " ADD COLUMN \"" + column + "\" " + ftype
      + (if nullable then " NULL" else " NOT NULL")
      + (if unique then " UNIQUE;" else ";")
  }

  /** The two flags can be read back from the statement: its four endings
      all differ in length. */
  lemma AddStatementFlags(table: string, column: string, ftype: string, u1: bool, n1: bool, u2: bool, n2: bool)
    ensures AddStatement(table, column, u1, n1, ftype) == AddStatement(table, column, u2, n2, ftype) ==> u1 == u2 && n1 == n2
  {
    var head := "ALTER TABLE " + table + " ADD COLUMN \"" + column + "\" " + ftype;
    assert |AddStatement(table, column, u1, n1, ftype)| == |head| + (if n1 then 5 else 9) + (if u1 then 8 else 1);
    assert |AddStatement(table, column, u2, n2, ftype)| == |head| + (if n2 then 5 else 9) + (if u2 then 8 else 1);
  }

  /** `Columns.add`: False for a missing table or a name already taken;
      otherwise the column goes last, every row gaining a NULL cell. */
  function AddOutcome(cat: Catalog, accepts: (Catalog, string) -> bool, table: string, column: string,
                      unique: bool, nullable: bool, ftype: string): (r: (bool, Catalog))
    ensures r.0 <==> table in cat && column !in ColumnNames(cat[table].columns)
                     && accepts(cat, AddStatement(table, column, unique, nullable, ftype))
    ensures !r.0 ==> r.1 == cat
    ensures r.0 ==> r.1.Keys == cat.Keys && forall t :: t in cat && t != table ==> r.1[t] == cat[t]
    ensures r.0 ==> r.1[table].columns == cat[table].columns + [Column(column, ftype)]
    ensures r.0 ==> |r.1[table].rows| == |cat[table].rows|
    ensures r.0 ==> forall i :: 0 <= i < |cat[table].rows| ==> r.1[table].rows[i].cells == cat[table].rows[i].cells + [Null]
  {
    if table !in cat || column in Fields(cat, table, false).names then (false, cat)
    else Exec(cat, accepts, AddStatement(table, column, unique, nullable, ftype), AddColumn(table, Column(column, ftype)))
  }

  /** After a successful `add`, `fields` lists the new column last, and
      adding it a second time is refused. */
  lemma AddThenFields(cat: Catalog, accepts: (Catalog, string) -> bool, table: string, column: string,
                      unique: bool, nullable: bool, ftype: string)
    requires AddOutcome(cat, accepts, table, column, unique, nullable, ftype).0
    ensures var next := AddOutcome(cat, accepts, table, column, unique, nullable, ftype).1;
      && Fields(next, table, false) == NameList(ColumnNames(cat[table].columns) + [column])
      && Fields(next, table, true) == TypeList(cat[table].columns + [Column(column, ftype)])
      && !AddOutcome(next, accepts, table, column, unique, nullable, ftype).0
  {
    var next := AddOutcome(cat, accepts, table, column, unique, nullable, ftype).1;
    var cols := cat[table].columns + [Column(column, ftype)];
    assert ColumnNames(cols) == ColumnNames(cat[table].columns) + [column];
    assert ColumnNames(cols)[|cols| - 1] == column;
  }

  method Add(db: Lite.DB, table: string, column: string, unique: bool, nullable: bool, ftype: string) returns (ok: bool)
    requires db.Valid()
    modifies db
    ensures db.Valid() && db.currentDb == old(db.currentDb)
    ensures (ok, db.Current()) == AddOutcome(old(db.Current()), db.accepts, table, column, unique, nullable, ftype)
    ensures db.files == old(db.files)[db.currentDb := db.Current()]
  {
    if table !in db.TableNames() || column in Fields(db.Current(), table, false).names {
      return false;
    }
    var code := "ALTER TABLE " + table + " ADD COLUMN \"" + column + "\" " + ftype;
    code := code + if nullable then " NULL" else " NOT NULL";
    code := code + if unique then " UNIQUE;" else ";";
    ok := db.Execute(code, AddColumn(table, Column(column, ftype)));
  }

  // ---------------------------------------------------------------------
  // remove

  /** The position of the first `x`. */
  function FirstIndex(s: seq<string>, x: string): (i: nat)
    requires x in s
    ensures i < |s| && s[i] == x && x !in s[..i]
    decreases |s|
  {
    if s[0] == x then 0
    else
      var i := FirstIndex(s[1..], x) + 1;
      assert s[..i] == [s[0]] + s[1..][..i - 1];
      i
  }

  /** `list.remove(x)` */
  function RemoveFirst(s: seq<string>, x: string): seq<string>
    decreases |s|
  {
    if s == [] then []
    else if s[0] == x then s[1..]
    else [s[0]] + RemoveFirst(s[1..], x)
  }

  /** `list.remove(x)` takes out the first `x` and nothing else. */
  lemma {:induction false} RemoveFirstAt(s: seq<string>, x: string)
    requires x in s
    ensures RemoveFirst(s, x) == s[..FirstIndex(s, x)] + s[FirstIndex(s, x) + 1..]
    decreases |s|
  {
    if s[0] != x {
      RemoveFirstAt(s[1..], x);
      var i := FirstIndex(s, x);
      assert i == FirstIndex(s[1..], x) + 1;
      ConsDeleteAt(s, i);
    }
  }

  /** Deleting position `i` from the tail, then putting the head back. */
  lemma ConsDeleteAt<T>(s: seq<T>, i: nat)
    requires 1 <= i < |s|
    ensures [s[0]] + (s[1..][..i - 1] + s[1..][i..]) == s[..i] + s[i + 1..]
  {
    assert s[1..][..i - 1] + s[1..][i..] == s[1..i] + s[i + 1..];
    assert [s[0]] + s[1..i] == s[..i];
  }

  /** Taking out an element that is there shortens the list by one and
      leaves only elements that were there. */
  lemma RemoveFirstIn(s: seq<string>, x: string)
    requires x in s
    ensures |RemoveFirst(s, x)| == |s| - 1
    ensures forall n :: n in RemoveFirst(s, x) ==> n in s
  {
    RemoveFirstAt(s, x);
    var i := FirstIndex(s, x);
    forall n | n in RemoveFirst(s, x) ensures n in s {
      assert n in s[..i] || n in s[i + 1..];
    }
  }

  /** Taking one element out keeps a list free of repeats, and what is left
      was there before. */
  lemma RemoveFirstDistinct(s: seq<string>, x: string)
    requires x in s && Text.Distinct(s)
    ensures Text.Distinct(RemoveFirst(s, x))
    ensures x !in RemoveFirst(s, x)
    ensures forall y :: y in RemoveFirst(s, x) <==> y in s && y != x
  {
    RemoveFirstAt(s, x);
    DeleteAtDistinct(s, FirstIndex(s, x), RemoveFirst(s, x));
  }

  /** Deleting position `i` from a list without repeats. */
  lemma DeleteAtDistinct(s: seq<string>, i: nat, r: seq<string>)
    requires i < |s| && r == s[..i] + s[i + 1..] && Text.Distinct(s)
    ensures Text.Distinct(r)
    ensures s[i] !in r
    ensures forall y :: y in r <==> y in s && y != s[i]
  {
    assert forall k :: 0 <= k < |r| ==> r[k] == if k < i then s[k] else s[k + 1];
    forall y ensures y in r <==> y in s && y != s[i] {
      if y in s && y != s[i] {
        var k :| 0 <= k < |s| && s[k] == y;
        if k < i { assert r[k] == y; } else { assert r[k - 1] == y; }
      }
    }
  }

  function Spaced(fields: seq<string>): seq<string> {
    seq(|fields|, i requires 0 <= i < |fields| => " " + fields[i])
  }

  /** `"SELECT"`, then `" f,"` per field, the last comma cut, `" FROM t"`. */
  function SelectStatement(table: string, fields: seq<string>): string {
    Text.DropLast("SELECT" + Text.Terminated(Spaced(fields), ",")) + " FROM " + table
  }

  /** The SELECT lists the fields, in order, separated by `, `. */
  lemma SelectStatementText(table: string, fields: seq<string>)
    requires fields != []
    ensures SelectStatement(table, fields) == "SELECT " + Text.Join(fields, ", ") + " FROM " + table
  {
    var sp := Spaced(fields);
    var t := Text.Terminated(sp, ",");
    Text.TerminatedJoin(sp, ",");
    Text.DropLastTerminated(sp, ',');
    Text.DropLastAppend("SELECT", t);
    SpacedJoin(fields);
    var j := Text.Join(fields, ", ");
    assert Text.DropLast("SELECT" + t) == "SELECT" + (" " + j);
    assert "SELECT" + (" " + j) == "SELECT " + j;
  }

  /** The spaced fields joined by commas: a space, then the fields joined by
      `, `. */
  lemma SpacedJoin(fields: seq<string>)
    requires fields != []
    ensures Text.Join(Spaced(fields), ",") == " " + Text.Join(fields, ", ")
  {
    Text.JoinSpaced(fields, ",");
    assert Spaced(fields) == seq(|fields|, i requires 0 <= i < |fields| => " " + fields[i]);
    assert "," + " " == ", ";
  }

  /** The loop that builds the SELECT. */
  method SelectText(table: string, fields: seq<string>) returns (code: string)
    ensures code == SelectStatement(table, fields)
  {
    ghost var sp := Spaced(fields);
    code := "SELECT";
    var i := 0;
    while i < |fields|
      invariant 0 <= i <= |fields|
      invariant code == "SELECT" + Text.Terminated(sp[..i], ",")
    {
      assert sp[..i + 1] == sp[..i] + [" " + fields[i]];
      Tables.TerminatedSnoc(sp[..i], " " + fields[i], ",");
      code := code + " " + fields[i] + ",";
      i := i + 1;
    }
    assert sp[..i] == sp;
    code := Text.DropLast(code);
    code := code + " FROM " + table;
  }

  function Bares(names: seq<string>): (r: seq<Tables.Field>)
    ensures |r| == |names| && forall i :: 0 <= i < |names| ==> r[i] == Tables.Bare(names[i])
  {
    seq(|names|, i requires 0 <= i < |names| => Tables.Bare(names[i]))
  }

  /** `Columns.remove(table, column)` as written: the result (or the
      exception) and the catalog afterwards. With other columns left, the
      table is dropped and created again from their names with the default
      `auto`; the loop over the rows read before then fails at once, on the
      missing `self.records` (AttributeError), or on iterating False when the
      SELECT was refused (TypeError). */
  function RemoveOutcome(cat: Catalog, accepts: (Catalog, string) -> bool, affinity: seq<string>,
                         table: string, column: string): (r: (Outcome<bool>, Catalog))
    ensures table !in cat || column !in ColumnNames(cat[table].columns) ==> r == (Return(false), cat)
    ensures table in cat && ColumnNames(cat[table].columns) == [column] ==>
      r == (Return(true), Tables.DropOutcome(cat, accepts, table).1)
    ensures r.0.Raise? ==> r.0.error == TypeError || r.0.error == AttributeError
    ensures r.0 == Return(false) ==> r.1 == cat
  {
    if table !in cat then (Return(false), cat)
    else
      var names := Fields(cat, table, false).names;
      if column !in names then (Return(false), cat)
      else
        var fields := RemoveFirst(names, column);
        if |fields| == 0 then (Return(true), Tables.DropOutcome(cat, accepts, table).1)
        else
          var records := Query(cat, accepts, SelectStatement(table, fields), table, fields);
          var created := Rebuild(cat, accepts, affinity, table, fields);
          if records.None? then (Raise(TypeError), created)
          else if records.value != [] then (Raise(AttributeError), created)
          else (Return(true), created)
  }

  /** `drop(table)` and then `create(table, fields)` with the defaults,
      neither result used. */
  function Rebuild(cat: Catalog, accepts: (Catalog, string) -> bool, affinity: seq<string>,
                   table: string, fields: seq<string>): Catalog {
    var dropped := Tables.DropOutcome(cat, accepts, table).1;
    Tables.CreateOutcome(dropped, accepts, affinity, table, Bares(fields), true, [], None, []).1
  }

  /** The two calls of `rebuild`. The value of `create` is not used; with no
      `pk` it never raises. */
  method RebuildTable(db: Lite.DB, table: string, fields: seq<string>)
    requires db.Valid()
    modifies db
    ensures db.Valid() && db.currentDb == old(db.currentDb)
    ensures db.Current() == Rebuild(old(db.Current()), db.accepts, Tables.AffinityNames(), table, fields)
    ensures db.files == old(db.files)[db.currentDb := db.Current()]
  {
    var dropped := Tables.Drop(db, table);
    ghost var mid := db.Current();
    var created := Tables.Create(db, table, Bares(fields), true, [], None, []);
    assert db.Current() == Tables.CreateOutcome(mid, db.accepts, Tables.AffinityNames(), table, Bares(fields), true, [], None, []).1;
    Lite.UpdateTwice(old(db.files), db.currentDb, mid, db.Current());
  }

  /** The imperative `remove`. */
  method Remove(db: Lite.DB, table: string, column: string) returns (r: Outcome<bool>)
    requires db.Valid()
    modifies db
    ensures db.Valid() && db.currentDb == old(db.currentDb)
    ensures (r, db.Current()) == RemoveOutcome(old(db.Current()), db.accepts, Tables.AffinityNames(), table, column)
    ensures db.files == old(db.files)[db.currentDb := db.Current()]
  {
    if table !in db.TableNames() {
      return Return(false);
    }
    var fields := Fields(db.Current(), table, false).names;
    if column !in fields {
      return Return(false);
    }
    fields := RemoveFirst(fields, column);
    if |fields| == 0 {
      var dropped := Tables.Drop(db, table);
      return Return(true);
    }
    var code := SelectText(table, fields);
    var records := Query(db.Current(), db.accepts, code, table, fields);
    assert code == SelectStatement(table, fields);
    RebuildTable(db, table, fields);
    if records.None? {
      return Raise(TypeError);
    }
    if records.value != [] {
      return Raise(AttributeError);
    }
    r := Return(true);
  }

  /** As written, removing a column from a table that has rows and other
      columns raises AttributeError after the table was dropped: whatever
      table is left under the name is empty. */
  lemma RemoveLosesRows(cat: Catalog, accepts: (Catalog, string) -> bool, affinity: seq<string>,
                        table: string, column: string)
    requires forall c, s :: accepts(c, s)
    requires table in cat && column in ColumnNames(cat[table].columns)
    requires |cat[table].columns| >= 2 && cat[table].rows != []
    ensures var r := RemoveOutcome(cat, accepts, affinity, table, column);
      r.0 == Raise(AttributeError) && (table !in r.1 || r.1[table].rows == [])
  {
    var names := ColumnNames(cat[table].columns);
    var fields := RemoveFirst(names, column);
    RemoveFirstIn(names, column);
    assert forall n :: n in fields ==> Resolvable(cat[table], n);
    var dropped := Tables.DropOutcome(cat, accepts, table).1;
    assert table !in dropped;
    assert Query(cat, accepts, SelectStatement(table, fields), table, fields) == Some(Select(cat[table], fields));
    var created := Tables.CreateOutcome(dropped, accepts, affinity, table, Bares(fields), true, [], None, []);
    if created.0 == Return(true) {
      Tables.CreateAddsTable(dropped, accepts, affinity, table, Bares(fields), true, [], None, []);
    }
  }

  // ---------------------------------------------------------------------
  // What `remove` evidently means

  /** Each row inserted, one after the other, through the record manager. */
  function InsertAll(cat: Catalog, accepts: (Catalog, string) -> bool, table: string, records: seq<seq<Value>>): Catalog
    decreases |records|
  {
    if records == [] then cat
    else Records.InsertOutcome(InsertAll(cat, accepts, table, records[..|records| - 1]), accepts, table, records[|records| - 1], Null).1
  }

  /** One row of the right length, inserted with every statement accepted,
      is appended to the table and nothing else changes. */
  lemma InsertOneRow(cat: Catalog, accepts: (Catalog, string) -> bool, table: string, cells: seq<Value>)
    requires forall c, s :: accepts(c, s)
    requires table in cat && |cells| == |cat[table].columns|
    ensures var next := Records.InsertOutcome(cat, accepts, table, cells, Null).1;
      && next.Keys == cat.Keys && next[table].columns == cat[table].columns
      && Lite.Cells(next[table].rows) == Lite.Cells(cat[table].rows) + [cells]
  {
    var padded := Records.Padded(cells, |cat[table].columns|, Null);
    assert padded == padded[..|cells|] == cells;
    var rows := cat[table].rows + [Row(NextRowid(cat[table].rows), cells)];
    assert Lite.Cells(rows) == Lite.Cells(cat[table].rows) + [cells];
  }

  /** Inserting rows of the right length appends them, in order. */
  lemma {:induction false} InsertAllRows(cat: Catalog, accepts: (Catalog, string) -> bool, table: string, records: seq<seq<Value>>)
    requires forall c, s :: accepts(c, s)
    requires table in cat
    requires forall i :: 0 <= i < |records| ==> |records[i]| == |cat[table].columns|
    ensures var next := InsertAll(cat, accepts, table, records);
      && next.Keys == cat.Keys && next[table].columns == cat[table].columns
      && Lite.Cells(next[table].rows) == Lite.Cells(cat[table].rows) + records
    decreases |records|
  {
    if records != [] {
      var init := records[..|records| - 1];
      var last := records[|records| - 1];
      assert forall i :: 0 <= i < |init| ==> init[i] == records[i];
      InsertAllRows(cat, accepts, table, init);
      var prev := InsertAll(cat, accepts, table, init);
      InsertOneRow(prev, accepts, table, last);
      Text.InitLast(records);
    }
  }

  /** The intended `remove`: a refused SELECT changes nothing, the table is
      created again without the synthetic key (`auto=False`), and each row
      read is inserted through the record manager. */
  function RemoveIntended(cat: Catalog, accepts: (Catalog, string) -> bool, affinity: seq<string>,
                          table: string, column: string): (r: (bool, Catalog))
    ensures table !in cat || column !in ColumnNames(cat[table].columns) ==> r == (false, cat)
  {
    if table !in cat then (false, cat)
    else
      var names := Fields(cat, table, false).names;
      if column !in names then (false, cat)
      else
        var fields := RemoveFirst(names, column);
        if |fields| == 0 then Tables.DropOutcome(cat, accepts, table)
        else match Query(cat, accepts, SelectStatement(table, fields), table, fields)
          case None => (false, cat)
          case Some(records) =>
            var dropped := Tables.DropOutcome(cat, accepts, table).1;
            var created := Tables.CreateOutcome(dropped, accepts, affinity, table, Bares(fields), false, [], None, []);
            (true, InsertAll(created.1, accepts, table, records))
  }

  /** With an engine that accepts every statement, the intended `remove`
      reads every row, drops the table, creates it again with the other
      columns and inserts the rows it read. */
  lemma RemoveIntendedSteps(cat: Catalog, accepts: (Catalog, string) -> bool, affinity: seq<string>,
                            table: string, column: string)
    requires forall c, s :: accepts(c, s)
    requires table in cat && column in ColumnNames(cat[table].columns) && |cat[table].columns| >= 2
    ensures var fields := RemoveFirst(ColumnNames(cat[table].columns), column);
      var created := Tables.CreateOutcome(cat - {table}, accepts, affinity, table, Bares(fields), false, [], None, []).1;
      RemoveIntended(cat, accepts, affinity, table, column) == (true, InsertAll(created, accepts, table, Select(cat[table], fields)))
  {
    var names := ColumnNames(cat[table].columns);
    RemoveFirstIn(names, column);
    var fields := RemoveFirst(names, column);
    assert forall n :: n in fields ==> Resolvable(cat[table], n);
    assert Query(cat, accepts, SelectStatement(table, fields), table, fields) == Some(Select(cat[table], fields));
    assert Tables.DropOutcome(cat, accepts, table).1 == cat - {table};
  }

  /** Distinct column names, as a list of names. */
  lemma NamesDistinct(cols: seq<Column>)
    requires DistinctNames(cols)
    ensures Text.Distinct(ColumnNames(cols))
  {
    var names := ColumnNames(cols);
    forall i, j | 0 <= i < j < |names| ensures names[i] != names[j] {
      assert names[i] == cols[i].name && names[j] == cols[j].name;
    }
  }

  /** With an engine that accepts every statement, the intended `remove`
      keeps the other columns, in order, and every row's cells under them. */
  lemma RemoveIntendedKeepsRows(cat: Catalog, accepts: (Catalog, string) -> bool, affinity: seq<string>,
                                table: string, column: string)
    requires forall c, s :: accepts(c, s)
    requires WellFormed(cat)
    requires table in cat && column in ColumnNames(cat[table].columns) && |cat[table].columns| >= 2
    ensures var fields := RemoveFirst(ColumnNames(cat[table].columns), column);
      var r := RemoveIntended(cat, accepts, affinity, table, column);
      && r.0 && table in r.1
      && Fields(r.1, table, false) == NameList(fields)
      && Lite.Cells(r.1[table].rows) == Select(cat[table], fields)
  {
    var names := ColumnNames(cat[table].columns);
    NamesDistinct(cat[table].columns);
    RemoveFirstDistinct(names, column);
    RemoveFirstAt(names, column);
    RemoveIntendedSteps(cat, accepts, affinity, table, column);
    RebuildKeepsRows(cat - {table}, accepts, affinity, table, RemoveFirst(names, column), Select(cat[table], RemoveFirst(names, column)));
  }

  /** Creating the table again over bare, distinct names and inserting rows
      of that many cells leaves exactly those columns and those rows. */
  lemma RebuildKeepsRows(cat: Catalog, accepts: (Catalog, string) -> bool, affinity: seq<string>, table: string,
                         fields: seq<string>, records: seq<seq<Value>>)
    requires forall c, s :: accepts(c, s)
    requires table !in cat && fields != [] && Text.Distinct(fields)
    requires forall i :: 0 <= i < |records| ==> |records[i]| == |fields|
    ensures var created := Tables.CreateOutcome(cat, accepts, affinity, table, Bares(fields), false, [], None, []).1;
      var next := InsertAll(created, accepts, table, records);
      && table in next
      && Fields(next, table, false) == NameList(fields)
      && Lite.Cells(next[table].rows) == records
  {
    var created := RecreateBare(cat, accepts, affinity, table, fields);
    InsertAllRows(created, accepts, table, records);
  }

  /** `create(table, fields, auto=False)` over bare, distinct names builds a
      table with exactly those columns and no rows. */
  lemma RecreateBare(cat: Catalog, accepts: (Catalog, string) -> bool, affinity: seq<string>, table: string, fields: seq<string>)
    returns (next: Catalog)
    requires forall c, s :: accepts(c, s)
    requires table !in cat && fields != [] && Text.Distinct(fields)
    ensures Tables.CreateOutcome(cat, accepts, affinity, table, Bares(fields), false, [], None, []) == (Return(true), next)
    ensures table in next && ColumnNames(next[table].columns) == fields && next[table].rows == []
  {
    var bares := Bares(fields);
    Tables.ColumnsOfAccepted(bares, None, affinity);
    Tables.ColumnsOfShape(bares, None, affinity);
    assert Tables.FieldNames(bares) == fields;
    Text.DedupDistinct(fields);
    var cols := Tables.ColumnsOf(bares, None, affinity).value;
    assert |ColumnNames(cols)| == |cols|;
    Tables.DeclaredWithoutAuto(cols, None);
    assert Tables.CreateStatement(table, cols, false, [], None, []).Return?;
    assert Tables.Declared(bares, []);
    assert Apply(cat, CreateTable(table, cols)) == Some(cat[table := Table(cols, [])]);
    Tables.CreateExecutes(cat, accepts, affinity, table, bares, false, [], None, []);
    var text := Tables.CreateStatement(table, cols, false, [], None, []).value;
    assert Tables.DeclaredColumns(cols, false, None) == cols;
    assert accepts(cat, text);
    assert Exec(cat, accepts, text, CreateTable(table, cols)) == (true, cat[table := Table(cols, [])]);
    next := cat[table := Table(cols, [])];
  }

  // ---------------------------------------------------------------------
  // primary_key

  const PRAGMA := "PRAGMA foreign_keys=off;"

  /** The name the original table is moved to while the keyed one is built. */
  function OldName(table: string): string {
    "old_" + table
  }

  /** Where the key's values come from: the column itself when the table has
      it, otherwise the row identifier. */
  function RowidOf(cols: seq<Column>, column: string): string {
    if column in ColumnNames(cols) then column else "ROWID"
  }

  /** The dictionary of the other columns: `del columns[column]` runs only
      when the values come from the column itself. */
  function KeyRest(cols: seq<Column>, column: string): seq<Column> {
    if RowidOf(cols, column) != "ROWID" then Tables.RemoveName(cols, column) else cols
  }

  /** The keyed table's columns: the key first, then every other original
      column, all distinct. */
  lemma KeyRestFacts(cols: seq<Column>, column: string, ftype: string)
    requires DistinctNames(cols) && column != "ROWID"
    ensures var rest := KeyRest(cols, column);
      && (forall c :: c in rest <==> c in cols && c.name != column)
      && DistinctNames([Column(column, ftype)] + rest)
  {
    Tables.RemoveNameFacts(cols, column);
    var rest := KeyRest(cols, column);
    assert rest == Tables.RemoveName(cols, column);
    DistinctAfter(Column(column, ftype), rest);
  }

  /** A column put in front of distinct columns none of which shares its
      name keeps the names distinct. */
  lemma DistinctAfter(c: Column, rest: seq<Column>)
    requires DistinctNames(rest) && forall x :: x in rest ==> x.name != c.name
    ensures DistinctNames([c] + rest)
  {
    var all := [c] + rest;
    forall i, j | 0 <= i < j < |all| ensures all[i].name != all[j].name {
      assert all[j] == rest[j - 1];
      if i > 0 {
        assert all[i] == rest[i - 1];
      }
    }
  }

  /** `"ROWID"` names the row identifier in a SELECT list. */
  lemma RowidResolvable(t: Table)
    ensures Resolvable(t, "ROWID")
  {
    var u := Text.Upper("ROWID");
    assert u[0] == 'R' && u[1] == 'O' && u[2] == 'W' && u[3] == 'I' && u[4] == 'D';
    assert u == "ROWID";
  }

  /** Every name the copy selects resolves in the original table, one per
      column of the keyed table. */
  lemma CopyNamesResolve(t: Table, column: string, ftype: string)
    requires WellFormedTable(t) && column != "ROWID"
    ensures var rest := KeyRest(t.columns, column);
      var names := [RowidOf(t.columns, column)] + ColumnNames(rest);
      && |names| == |[Column(column, ftype)] + rest|
      && (forall n :: n in names ==> Resolvable(t, n))
  {
    KeyRestFacts(t.columns, column, ftype);
    var rest := KeyRest(t.columns, column);
    RowidResolvable(t);
    forall n | n in ColumnNames(rest) ensures n in ColumnNames(t.columns) {
      var k :| 0 <= k < |ColumnNames(rest)| && ColumnNames(rest)[k] == n;
      assert rest[k] in rest;
      var m :| 0 <= m < |t.columns| && t.columns[m] == rest[k];
      assert ColumnNames(t.columns)[m] == n;
    }
  }

  // The CREATE statement

  function KeyHead(table: string, column: string, ftype: string): string {
    "\n            CREATE TABLE " + table + " (\n               " + column + " " + ftype + " NOT NULL PRIMARY KEY,\n            "
  }

  function KeyLine(c: Column): string {
    c.name + " " + c.ctype + " NOT NULL"
  }

  function KeyLines(cols: seq<Column>): (r: seq<string>)
    ensures |r| == |cols| && forall i :: 0 <= i < |cols| ==> r[i] == KeyLine(cols[i])
  {
    seq(|cols|, i requires 0 <= i < |cols| => KeyLine(cols[i]))
  }

  /** The statement that creates the keyed table: the key line, each other
      column followed by a comma, the last character cut, `);` added. */
  function KeyCreateStatement(table: string, column: string, ftype: string, rest: seq<Column>): string {
    Text.DropLast(KeyHead(table, column, ftype) + Text.Terminated(KeyLines(rest), ",")) + ");"
  }

  /** With other columns, the cut removes the comma after the last one and
      the columns are separated by commas. */
  lemma KeyCreateStatementText(table: string, column: string, ftype: string, rest: seq<Column>)
    requires rest != []
    ensures KeyCreateStatement(table, column, ftype, rest) ==
      KeyHead(table, column, ftype) + Text.Join(KeyLines(rest), ",") + ");"
  {
    Text.DropLastTerminated(KeyLines(rest), ',');
    Text.DropLastAppend(KeyHead(table, column, ftype), Text.Terminated(KeyLines(rest), ","));
  }

  /** The loop of `primary_key` that builds the CREATE statement. */
  method KeyCreateText(table: string, column: string, ftype: string, rest: seq<Column>) returns (code: string)
    ensures code == KeyCreateStatement(table, column, ftype, rest)
  {
    ghost var lines := KeyLines(rest);
    var head := KeyHead(table, column, ftype);
    code := head;
    for i := 0 to |rest|
      invariant code == head + Text.Terminated(lines[..i], ",")
    {
      Text.TerminatedPrefix(lines, i, ",");
      var line := rest[i].name + " " + rest[i].ctype + " NOT NULL";
      assert line == lines[i];
      Text.AppendAfterPrefix(head, Text.Terminated(lines[..i], ","), line, ",");
      code := code + line + ",";
    }
    assert lines[..|rest|] == lines;
    code := Text.DropLast(code) + ");";
  }

  // The copy statement

  /** `f"{columns[0]}, " + ', '.join(columns[1:])`: IndexError on an empty
      list. */
  function CopyList(names: seq<string>): (r: Outcome<string>)
    ensures r.Raise? <==> names == []
    ensures r.Raise? ==> r.error == IndexError
  {
    if names == [] then Raise(IndexError) else Return(names[0] + ", " + Text.Join(names[1..], ", "))
  }

  function CopyStatement(table: string, rowid: string, list: string): string {
    "\n        INSERT INTO " + table + "\n        SELECT " + rowid + ", " + list + " FROM old_" + table + ";\n        "
  }

  // The whole of `primary_key`

  /** `Columns.primary_key(table, column, ftype)` over the current catalog.
      The rename's result is not looked at; each later statement goes
      through `check`, which turns a refusal into False. Only a refused copy
      is undone; the IndexError of an empty column list propagates. */
  function PrimaryKeyOutcome(cat: Catalog, accepts: (Catalog, string) -> bool, table: string,
                             column: string, ftype: string): (r: (Outcome<bool>, Catalog))
    ensures table !in cat ==> r == (Return(false), cat)
    ensures r.0.Raise? ==> r.0.error == IndexError && table in cat && KeyRest(cat[table].columns, column) == []
  {
    if table !in cat then (Return(false), cat)
    else
      var cols := cat[table].columns;
      var c1 := Tables.RenameOutcome(cat, accepts, table, OldName(table)).1;
      KeyBuild(c1, accepts, table, column, ftype, RowidOf(cols, column), KeyRest(cols, column))
  }

  /** The steps after the rename: the two PRAGMA statements and the CREATE
      statement, each of which ends the operation with False when refused. */
  function KeyBuild(c1: Catalog, accepts: (Catalog, string) -> bool, table: string, column: string,
                    ftype: string, rowid: string, rest: seq<Column>): (r: (Outcome<bool>, Catalog))
    ensures r.0.Raise? ==> r.0.error == IndexError && rest == []
  {
    var p1 := Exec(c1, accepts, PRAGMA, NoEffect);
    if !p1.0 then (Return(false), p1.1)
    else
      var p2 := Exec(p1.1, accepts, PRAGMA, NoEffect);
      if !p2.0 then (Return(false), p2.1)
      else
        var made := Exec(p2.1, accepts, KeyCreateStatement(table, column, ftype, rest),
                         CreateTable(table, [Column(column, ftype)] + rest));
        if !made.0 then (Return(false), made.1)
        else KeyCopy(made.1, accepts, table, rowid, rest)
  }

  /** The copy into the keyed table: on refusal the new table is dropped and
      the old one renamed back; on success the old one is dropped. */
  function KeyCopy(made: Catalog, accepts: (Catalog, string) -> bool, table: string, rowid: string,
                   rest: seq<Column>): (r: (Outcome<bool>, Catalog))
    ensures r.0.Raise? <==> rest == []
    ensures r.0.Raise? ==> r.0.error == IndexError && r.1 == made
  {
    match CopyList(ColumnNames(rest))
    case Raise(e) => (Raise(e), made)
    case Return(list) =>
      var copied := Exec(made, accepts, CopyStatement(table, rowid, list),
                         CopyRows(table, OldName(table), [rowid] + ColumnNames(rest)));
      if !copied.0 then
        var dropped := Tables.DropOutcome(made, accepts, table).1;
        (Return(false), Tables.RenameOutcome(dropped, accepts, OldName(table), table).1)
      else (Return(true), Tables.DropOutcome(copied.1, accepts, OldName(table)).1)
  }

  method PrimaryKey(db: Lite.DB, table: string, column: string, ftype: string) returns (r: Outcome<bool>)
    requires db.Valid()
    modifies db
    ensures db.Valid() && db.currentDb == old(db.currentDb)
    ensures (r, db.Current()) == PrimaryKeyOutcome(old(db.Current()), db.accepts, table, column, ftype)
    ensures db.files == old(db.files)[db.currentDb := db.Current()]
  {
    var names := Fields(db.Current(), table, false);
    if names.Missing? {
      return Return(false);
    }
    var rowid := if column in names.names then column else "ROWID";
    var columns := Fields(db.Current(), table, true).pairs;
    if rowid != "ROWID" {
      columns := Tables.RemoveName(columns, column);
    }
    assert rowid == RowidOf(old(db.Current())[table].columns, column);
    assert columns == KeyRest(old(db.Current())[table].columns, column);
    var renamed := Tables.Rename(db, table, OldName(table));
    ghost var c1 := db.Current();
    r := BuildKeyed(db, table, column, ftype, rowid, columns);
    Lite.UpdateTwice(old(db.files), db.currentDb, c1, db.Current());
  }

  /** The PRAGMA, CREATE and copy steps of `primary_key` on the handle. */
  method BuildKeyed(db: Lite.DB, table: string, column: string, ftype: string, rowid: string, columns: seq<Column>)
    returns (r: Outcome<bool>)
    requires db.Valid()
    modifies db
    ensures db.Valid() && db.currentDb == old(db.currentDb)
    ensures (r, db.Current()) == KeyBuild(old(db.Current()), db.accepts, table, column, ftype, rowid, columns)
    ensures db.files == old(db.files)[db.currentDb := db.Current()]
  {
    ghost var c0 := db.Current();
    var ok := db.Execute(PRAGMA, NoEffect);
    if !ok {
      return Return(false);
    }
    ok := db.Execute(PRAGMA, NoEffect);
    Lite.UpdateTwice(old(db.files), db.currentDb, c0, c0);
    if !ok {
      return Return(false);
    }
    var code := KeyCreateText(table, column, ftype, columns);
    ok := db.Execute(code, CreateTable(table, [Column(column, ftype)] + columns));
    Lite.UpdateTwice(old(db.files), db.currentDb, c0, db.Current());
    if !ok {
      return Return(false);
    }
    ghost var made := db.Current();
    r := CopyKeyed(db, table, rowid, columns);
    Lite.UpdateTwice(old(db.files), db.currentDb, made, db.Current());
  }

  /** The copy step of `primary_key` on the handle, with its rollback. */
  method CopyKeyed(db: Lite.DB, table: string, rowid: string, columns: seq<Column>) returns (r: Outcome<bool>)
    requires db.Valid()
    modifies db
    ensures db.Valid() && db.currentDb == old(db.currentDb)
    ensures (r, db.Current()) == KeyCopy(old(db.Current()), db.accepts, table, rowid, columns)
    ensures db.files == old(db.files)[db.currentDb := db.Current()]
  {
    var list := CopyList(ColumnNames(columns));
    if list.Raise? {
      return Raise(list.error);
    }
    var code := CopyStatement(table, rowid, list.value);
    var ok := db.Execute(code, CopyRows(table, OldName(table), [rowid] + ColumnNames(columns)));
    ghost var copied := db.Current();
    if !ok {
      var dropped := Tables.Drop(db, table);
      ghost var c2 := db.Current();
      Lite.UpdateTwice(old(db.files), db.currentDb, copied, c2);
      var restored := Tables.Rename(db, OldName(table), table);
      Lite.UpdateTwice(old(db.files), db.currentDb, c2, db.Current());
      return Return(false);
    }
    var dropped := Tables.Drop(db, OldName(table));
    Lite.UpdateTwice(old(db.files), db.currentDb, copied, db.Current());
    r := Return(true);
  }

  // What `primary_key` guarantees

  /** The rows a successful copy leaves in an empty target: the selected
      cells of every source row, in order. */
  lemma CopiedCells(made: Catalog, table: string, names: seq<string>)
    requires table != OldName(table) && table in made && OldName(table) in made && made[table].rows == []
    requires Apply(made, CopyRows(table, OldName(table), names)).Some?
    ensures var next := Apply(made, CopyRows(table, OldName(table), names)).value;
      && next.Keys == made.Keys
      && next[table].columns == made[table].columns
      && Lite.Cells(next[table].rows) == Select(made[OldName(table)], names)
      && forall t :: t in made && t != table ==> next[t] == made[t]
  {
    var next := Apply(made, CopyRows(table, OldName(table), names)).value;
    var s := made[OldName(table)];
    assert |Lite.Cells(next[table].rows)| == |s.rows|;
    forall i | 0 <= i < |s.rows| ensures Lite.Cells(next[table].rows)[i] == Select(s, names)[i] {
      assert next[table].rows[i].cells == Project(s, s.rows[i], names);
    }
  }

  /** The catalog once the table has been renamed aside and the keyed table
      created empty under its name. */
  function Keyed(cat: Catalog, table: string, column: string, ftype: string): Catalog
    requires table in cat
  {
    (cat - {table})[OldName(table) := cat[table]][table := Table([Column(column, ftype)] + KeyRest(cat[table].columns, column), [])]
  }

  /** The names the copy selects: the key's value source, then the others. */
  function KeyNames(cols: seq<Column>, column: string): seq<string> {
    [RowidOf(cols, column)] + ColumnNames(KeyRest(cols, column))
  }

  /** A successful copy into the keyed table fills it with the selected cells
      of the original rows and touches no other table. */
  lemma CopiedKeyed(cat: Catalog, table: string, column: string, ftype: string)
    requires table in cat && OldName(table) !in cat
    requires Apply(Keyed(cat, table, column, ftype), CopyRows(table, OldName(table), KeyNames(cat[table].columns, column))).Some?
    ensures var next := Apply(Keyed(cat, table, column, ftype), CopyRows(table, OldName(table), KeyNames(cat[table].columns, column))).value;
      && table != OldName(table) && table in next && OldName(table) in next
      && next[table].columns == [Column(column, ftype)] + KeyRest(cat[table].columns, column)
      && Lite.Cells(next[table].rows) == Select(cat[table], KeyNames(cat[table].columns, column))
      && forall t :: t in cat && t != table ==> t in next && next[t] == cat[t]
  {
    var made := Keyed(cat, table, column, ftype);
    assert |OldName(table)| != |table|;
    assert made[OldName(table)] == cat[table];
    CopiedCells(made, table, KeyNames(cat[table].columns, column));
  }

  /** The copy into the keyed table applies: the target is there, empty, with
      one column per selected name, and every name resolves in the original. */
  lemma KeyedCopyApplies(cat: Catalog, table: string, column: string, ftype: string)
    requires table in cat && OldName(table) !in cat && WellFormedTable(cat[table]) && column != "ROWID"
    ensures Apply(Keyed(cat, table, column, ftype), CopyRows(table, OldName(table), KeyNames(cat[table].columns, column))).Some?
  {
    CopyNamesResolve(cat[table], column, ftype);
    var made := Keyed(cat, table, column, ftype);
    assert |OldName(table)| != |table|;
    assert made[OldName(table)] == cat[table];
  }

  /** A True from the steps after the rename means the CREATE went through on
      a catalog without the table, and the rest is the copy step. */
  lemma KeyBuildSucceeded(c1: Catalog, accepts: (Catalog, string) -> bool, table: string, column: string,
                          ftype: string, rowid: string, rest: seq<Column>)
    requires KeyBuild(c1, accepts, table, column, ftype, rowid, rest).0 == Return(true)
    ensures table !in c1
    ensures KeyBuild(c1, accepts, table, column, ftype, rowid, rest) ==
      KeyCopy(c1[table := Table([Column(column, ftype)] + rest, [])], accepts, table, rowid, rest)
  {
    assert Exec(c1, accepts, PRAGMA, NoEffect) == (true, c1);
    var e := CreateTable(table, [Column(column, ftype)] + rest);
    var made := Exec(c1, accepts, KeyCreateStatement(table, column, ftype, rest), e);
    assert made.0;
    assert Apply(c1, e).Some?;
  }

  /** A True from the copy step means the copy applied and the old table's
      drop was the last step. */
  lemma KeyCopySucceeded(made: Catalog, accepts: (Catalog, string) -> bool, table: string, rowid: string, rest: seq<Column>)
    requires KeyCopy(made, accepts, table, rowid, rest).0 == Return(true)
    ensures Apply(made, CopyRows(table, OldName(table), [rowid] + ColumnNames(rest))).Some?
    ensures KeyCopy(made, accepts, table, rowid, rest).1 ==
      Tables.DropOutcome(Apply(made, CopyRows(table, OldName(table), [rowid] + ColumnNames(rest))).value, accepts, OldName(table)).1
  {
  }

  /** When `primary_key` returns True, the table has the key first and every
      other original column after it, and each original row has been copied
      with the key taken from the column or from the row identifier; tables
      other than it and its temporary name are untouched. */
  lemma PrimaryKeyRekeys(cat: Catalog, accepts: (Catalog, string) -> bool, table: string, column: string, ftype: string)
    requires PrimaryKeyOutcome(cat, accepts, table, column, ftype).0 == Return(true)
    ensures table in cat && OldName(table) !in cat
    ensures var r := PrimaryKeyOutcome(cat, accepts, table, column, ftype).1;
      var rest := KeyRest(cat[table].columns, column);
      && table in r
      && r[table].columns == [Column(column, ftype)] + rest
      && Lite.Cells(r[table].rows) == Select(cat[table], [RowidOf(cat[table].columns, column)] + ColumnNames(rest))
      && forall t :: t in cat && t != table && t != OldName(table) ==> t in r && r[t] == cat[t]
  {
    var cols := cat[table].columns;
    var rowid := RowidOf(cols, column);
    var rest := KeyRest(cols, column);
    var renamed := Tables.RenameOutcome(cat, accepts, table, OldName(table));
    var c1 := renamed.1;
    assert PrimaryKeyOutcome(cat, accepts, table, column, ftype) == KeyBuild(c1, accepts, table, column, ftype, rowid, rest);
    KeyBuildSucceeded(c1, accepts, table, column, ftype, rowid, rest);
    assert renamed.0;
    var made := Keyed(cat, table, column, ftype);
    assert c1[table := Table([Column(column, ftype)] + rest, [])] == made;
    KeyCopySucceeded(made, accepts, table, rowid, rest);
    assert [rowid] + ColumnNames(rest) == KeyNames(cols, column);
    CopiedKeyed(cat, table, column, ftype);
  }

  /** Renaming the table aside and back, with a table created and dropped
      under its name in between, gives the catalog it started from. */
  lemma RenameAsideBack(cat: Catalog, table: string, keyed: Table)
    requires table in cat && OldName(table) !in cat
    ensures var c1 := (cat - {table})[OldName(table) := cat[table]];
      && table != OldName(table) && table !in c1 && OldName(table) in c1
      && c1[table := keyed] - {table} == c1
      && (c1 - {OldName(table)})[table := c1[OldName(table)]] == cat
  {
    assert |OldName(table)| != |table|;
    var c1 := (cat - {table})[OldName(table) := cat[table]];
    assert c1[table := keyed] - {table} == c1;
    assert (c1 - {OldName(table)})[table := c1[OldName(table)]] == cat;
  }

  /** A copy statement the engine refuses leads to the drop of the keyed
      table and the rename back. */
  lemma KeyCopyRefused(made: Catalog, accepts: (Catalog, string) -> bool, table: string, rowid: string, rest: seq<Column>)
    requires rest != []
    requires forall c :: !accepts(c, CopyStatement(table, rowid, CopyList(ColumnNames(rest)).value))
    ensures KeyCopy(made, accepts, table, rowid, rest) ==
      (Return(false), Tables.RenameOutcome(Tables.DropOutcome(made, accepts, table).1, accepts, OldName(table), table).1)
  {
  }

  /** A refused copy is undone: the keyed table is dropped and the original
      renamed back, leaving the catalog as it was. */
  lemma CopyRefusedRestores(cat: Catalog, accepts: (Catalog, string) -> bool, table: string, column: string, ftype: string)
    requires table in cat && OldName(table) !in cat && WellFormedTable(cat[table]) && column != "ROWID"
    requires KeyRest(cat[table].columns, column) != []
    requires forall c :: accepts(c, Tables.RenameStatement(table, OldName(table))) && accepts(c, PRAGMA)
    requires forall c :: accepts(c, KeyCreateStatement(table, column, ftype, KeyRest(cat[table].columns, column)))
    requires forall c :: accepts(c, Tables.DropStatement(table)) && accepts(c, Tables.RenameStatement(OldName(table), table))
    requires var rest := KeyRest(cat[table].columns, column);
      forall c :: !accepts(c, CopyStatement(table, RowidOf(cat[table].columns, column), CopyList(ColumnNames(rest)).value))
    ensures PrimaryKeyOutcome(cat, accepts, table, column, ftype) == (Return(false), cat)
  {
    var cols := cat[table].columns;
    var rowid := RowidOf(cols, column);
    var rest := KeyRest(cols, column);
    var keyed := Table([Column(column, ftype)] + rest, []);
    KeyRestFacts(cols, column, ftype);
    RenameAsideBack(cat, table, keyed);
    var c1 := (cat - {table})[OldName(table) := cat[table]];
    assert PrimaryKeyOutcome(cat, accepts, table, column, ftype) == KeyBuild(c1, accepts, table, column, ftype, rowid, rest);
    var made := c1[table := keyed];
    ExecCreate(c1, accepts, KeyCreateStatement(table, column, ftype, rest), table, [Column(column, ftype)] + rest);
    assert KeyBuild(c1, accepts, table, column, ftype, rowid, rest) == KeyCopy(made, accepts, table, rowid, rest);
    KeyCopyRefused(made, accepts, table, rowid, rest);
    assert Tables.DropOutcome(made, accepts, table).1 == c1;
  }

  // ---------------------------------------------------------------------
  // What `primary_key` evidently means

  /** As written, a refused PRAGMA or CREATE returns False with the table
      still renamed aside: under its own name it is gone. */
  lemma StageRefusedKeepsRename(cat: Catalog, accepts: (Catalog, string) -> bool, table: string, column: string, ftype: string)
    requires table in cat && OldName(table) !in cat
    requires forall c :: accepts(c, Tables.RenameStatement(table, OldName(table)))
    requires forall c :: !accepts(c, PRAGMA) || !accepts(c, KeyCreateStatement(table, column, ftype, KeyRest(cat[table].columns, column)))
    ensures var r := PrimaryKeyOutcome(cat, accepts, table, column, ftype);
      && r == (Return(false), (cat - {table})[OldName(table) := cat[table]])
      && table !in r.1
  {
  }

  /** As written, a table whose only column becomes the key gets a CREATE
      statement with a comma and no column after the key. */
  lemma KeyOnlyDanglingComma(table: string, column: string, ftype: string)
    ensures KeyCreateStatement(table, column, ftype, []) ==
      "\n            CREATE TABLE " + table + " (\n               " + column + " " + ftype + " NOT NULL PRIMARY KEY,\n           );"
  {
    var head := KeyHead(table, column, ftype);
    assert Text.Terminated(KeyLines([]), ",") == "";
    assert head + "" == head;
    assert head == ("\n            CREATE TABLE " + table + " (\n               " + column + " " + ftype + " NOT NULL PRIMARY KEY,\n           ") + " ";
  }

  /** As written, the engine refuses that CREATE for its dangling comma, so
      `primary_key` of a table's only column returns False with the table
      left under the temporary name. */
  lemma KeyOnlyCreateRefused(cat: Catalog, accepts: (Catalog, string) -> bool, table: string, column: string, ctype: string, ftype: string)
    requires table in cat && OldName(table) !in cat
    requires cat[table].columns == [Column(column, ctype)] && column != "ROWID"
    requires forall c :: accepts(c, Tables.RenameStatement(table, OldName(table)))
    requires forall c :: !accepts(c, KeyCreateStatement(table, column, ftype, []))
    ensures var r := PrimaryKeyOutcome(cat, accepts, table, column, ftype);
      && r == (Return(false), (cat - {table})[OldName(table) := cat[table]])
      && table !in r.1
  {
    var cols := cat[table].columns;
    assert ColumnNames(cols) == [column];
    Tables.RemoveNameFacts(cols, column);
    assert KeyRest(cols, column) == [];
    StageRefusedKeepsRename(cat, accepts, table, column, ftype);
  }

  /** As written, even when the engine accepts that statement, the copy list
      indexes an empty list: IndexError, with the new table empty and the
      rows left under the temporary name. */
  lemma KeyOnlyColumnRaises(cat: Catalog, accepts: (Catalog, string) -> bool, table: string, column: string, ctype: string, ftype: string)
    requires forall c, s :: accepts(c, s)
    requires table in cat && OldName(table) !in cat
    requires cat[table].columns == [Column(column, ctype)] && column != "ROWID"
    ensures var r := PrimaryKeyOutcome(cat, accepts, table, column, ftype);
      && r.0 == Raise(IndexError)
      && r.1 == (cat - {table})[OldName(table) := cat[table]][table := Table([Column(column, ftype)], [])]
  {
    var cols := cat[table].columns;
    assert ColumnNames(cols) == [column];
    assert Tables.RemoveName(cols, column) == [];
    assert KeyRest(cols, column) == [];
    assert |OldName(table)| != |table|;
    var c1 := (cat - {table})[OldName(table) := cat[table]];
    assert Tables.RenameOutcome(cat, accepts, table, OldName(table)).1 == c1;
    assert table !in c1;
    assert [Column(column, ftype)] + [] == [Column(column, ftype)];
    assert Exec(c1, accepts, KeyCreateStatement(table, column, ftype, []), CreateTable(table, [Column(column, ftype)] + []))
      == (true, c1[table := Table([Column(column, ftype)], [])]);
  }

  /** As written, with one column besides the key the copy list ends in a
      comma: `SELECT key, a,  FROM`. */
  lemma CopyListOneColumn(table: string, rowid: string, a: string)
    ensures CopyList([a]) == Return(a + ", ")
    ensures CopyStatement(table, rowid, CopyList([a]).value) ==
      "\n        INSERT INTO " + table + "\n        SELECT " + rowid + ", " + a + ",  FROM old_" + table + ";\n        "
  {
    assert [a][1..] == [];
    assert Text.Join([], ", ") == "";
    assert a + ", " + "" == a + ", ";
  }

  /** The intended CREATE statement: no comma after the key when no column
      follows it. */
  function KeyCreateIntended(table: string, column: string, ftype: string, rest: seq<Column>): (r: string)
    ensures rest != [] ==> r == KeyHead(table, column, ftype) + Text.Join(KeyLines(rest), ",") + ");"
  {
    if rest == [] then "\n            CREATE TABLE " + table + " (\n               " + column + " " + ftype + " NOT NULL PRIMARY KEY);"
    else KeyCreateStatementText(table, column, ftype, rest); KeyCreateStatement(table, column, ftype, rest)
  }

  /** The intended copy statement: the value source and the other columns,
      separated by commas. */
  function CopyStatementIntended(table: string, rowid: string, names: seq<string>): string {
    "\n        INSERT INTO " + table + "\n        SELECT " + Text.Join([rowid] + names, ", ") + " FROM old_" + table + ";\n        "
  }

  /** The intended copy statement is the written one wherever the written
      list is well formed (two or more other columns), and lists exactly the
      names otherwise. */
  lemma CopyStatementAgrees(table: string, rowid: string, names: seq<string>)
    ensures |names| >= 2 ==> CopyStatement(table, rowid, CopyList(names).value) == CopyStatementIntended(table, rowid, names)
    ensures |names| == 1 ==>
      CopyStatementIntended(table, rowid, names) ==
        "\n        INSERT INTO " + table + "\n        SELECT " + rowid + ", " + names[0] + " FROM old_" + table + ";\n        "
    ensures names == [] ==>
      CopyStatementIntended(table, rowid, names) ==
        "\n        INSERT INTO " + table + "\n        SELECT " + rowid + " FROM old_" + table + ";\n        "
  {
    var all := [rowid] + names;
    if names != [] {
      assert all[1..] == names;
      if |names| >= 2 {
        assert names[1..] != [];
        assert Text.Join(names, ", ") == names[0] + ", " + Text.Join(names[1..], ", ");
        assert Text.Join(all, ", ") == rowid + ", " + (names[0] + ", " + Text.Join(names[1..], ", "));
      }
    }
  }

  /** The intended `primary_key`: every failure after the rename is undone,
      and a table whose only column becomes the key is handled. */
  function PrimaryKeyIntended(cat: Catalog, accepts: (Catalog, string) -> bool, table: string,
                              column: string, ftype: string): (r: (bool, Catalog))
    ensures table !in cat ==> r == (false, cat)
  {
    if table !in cat then (false, cat)
    else
      var cols := cat[table].columns;
      var renamed := Tables.RenameOutcome(cat, accepts, table, OldName(table));
      if !renamed.0 then (false, cat)
      else KeyBuildIntended(renamed.1, accepts, table, column, ftype, RowidOf(cols, column), KeyRest(cols, column))
  }

  /** The intended steps after the rename: a refused PRAGMA or CREATE renames
      the table back. */
  function KeyBuildIntended(c1: Catalog, accepts: (Catalog, string) -> bool, table: string, column: string,
                            ftype: string, rowid: string, rest: seq<Column>): (bool, Catalog)
  {
    var made := if accepts(c1, PRAGMA) then Exec(c1, accepts, KeyCreateIntended(table, column, ftype, rest),
                                                 CreateTable(table, [Column(column, ftype)] + rest))
                else (false, c1);
    if !made.0 then (false, Tables.RenameOutcome(c1, accepts, OldName(table), table).1)
    else KeyCopyIntended(made.1, accepts, table, rowid, rest)
  }

  /** The intended copy step: the statement lists exactly the names, with the
      same rollback as the written one. */
  function KeyCopyIntended(made: Catalog, accepts: (Catalog, string) -> bool, table: string, rowid: string,
                           rest: seq<Column>): (bool, Catalog)
  {
    var copied := Exec(made, accepts, CopyStatementIntended(table, rowid, ColumnNames(rest)),
                       CopyRows(table, OldName(table), [rowid] + ColumnNames(rest)));
    if !copied.0 then
      var dropped := Tables.DropOutcome(made, accepts, table).1;
      (false, Tables.RenameOutcome(dropped, accepts, OldName(table), table).1)
    else (true, Tables.DropOutcome(copied.1, accepts, OldName(table)).1)
  }

  /** When the engine accepts the drop and the rename back, a False from the
      intended steps after the rename puts the renamed catalog back. */
  lemma KeyBuildIntendedRestores(cat: Catalog, accepts: (Catalog, string) -> bool, table: string, column: string,
                                 ftype: string, rowid: string, rest: seq<Column>)
    requires table in cat && OldName(table) !in cat
    requires forall c :: accepts(c, Tables.DropStatement(table)) && accepts(c, Tables.RenameStatement(OldName(table), table))
    ensures var c1 := (cat - {table})[OldName(table) := cat[table]];
      var r := KeyBuildIntended(c1, accepts, table, column, ftype, rowid, rest);
      !r.0 ==> r.1 == cat
  {
    assert |OldName(table)| != |table|;
    var c1 := (cat - {table})[OldName(table) := cat[table]];
    assert Tables.RenameOutcome(c1, accepts, OldName(table), table).1 == cat by {
      assert (c1 - {OldName(table)})[table := c1[OldName(table)]] == cat;
    }
    var made := if accepts(c1, PRAGMA) then Exec(c1, accepts, KeyCreateIntended(table, column, ftype, rest),
                                                 CreateTable(table, [Column(column, ftype)] + rest))
                else (false, c1);
    if made.0 {
      assert Tables.DropOutcome(made.1, accepts, table).1 == c1;
    }
  }

  /** When the engine accepts the drop and the rename back, a False from the
      intended `primary_key` leaves the catalog as it was. */
  lemma PrimaryKeyIntendedRestores(cat: Catalog, accepts: (Catalog, string) -> bool, table: string, column: string, ftype: string)
    requires forall c :: accepts(c, Tables.DropStatement(table)) && accepts(c, Tables.RenameStatement(OldName(table), table))
    ensures var r := PrimaryKeyIntended(cat, accepts, table, column, ftype);
      !r.0 ==> r.1 == cat
  {
    if table in cat && Tables.RenameOutcome(cat, accepts, table, OldName(table)).0 {
      var cols := cat[table].columns;
      KeyBuildIntendedRestores(cat, accepts, table, column, ftype, RowidOf(cols, column), KeyRest(cols, column));
    }
  }

  /** With an engine that accepts every statement, a copy that applies makes
      the intended copy step succeed and drop the old table. */
  lemma KeyCopyIntendedSucceeds(made: Catalog, accepts: (Catalog, string) -> bool, table: string, rowid: string, rest: seq<Column>)
    requires forall c, s :: accepts(c, s)
    requires Apply(made, CopyRows(table, OldName(table), [rowid] + ColumnNames(rest))).Some?
    requires OldName(table) in Apply(made, CopyRows(table, OldName(table), [rowid] + ColumnNames(rest))).value
    ensures KeyCopyIntended(made, accepts, table, rowid, rest) ==
      (true, Apply(made, CopyRows(table, OldName(table), [rowid] + ColumnNames(rest))).value - {OldName(table)})
  {
  }

  /** With an engine that accepts every statement, the intended
      `primary_key` renames the table aside, creates the keyed table and
      reaches the copy step. */
  lemma PrimaryKeyIntendedReachesCopy(cat: Catalog, accepts: (Catalog, string) -> bool, table: string, column: string, ftype: string)
    requires forall c, s :: accepts(c, s)
    requires table in cat && OldName(table) !in cat && WellFormedTable(cat[table]) && column != "ROWID"
    ensures var cols := cat[table].columns;
      PrimaryKeyIntended(cat, accepts, table, column, ftype) ==
        KeyCopyIntended(Keyed(cat, table, column, ftype), accepts, table, RowidOf(cols, column), KeyRest(cols, column))
  {
    var cols := cat[table].columns;
    var rowid := RowidOf(cols, column);
    var rest := KeyRest(cols, column);
    var keyed := Table([Column(column, ftype)] + rest, []);
    KeyRestFacts(cols, column, ftype);
    RenameAsideBack(cat, table, keyed);
    var c1 := (cat - {table})[OldName(table) := cat[table]];
    assert PrimaryKeyIntended(cat, accepts, table, column, ftype) == KeyBuildIntended(c1, accepts, table, column, ftype, rowid, rest);
    ExecCreate(c1, accepts, KeyCreateIntended(table, column, ftype, rest), table, [Column(column, ftype)] + rest);
    assert Keyed(cat, table, column, ftype) == c1[table := keyed];
  }

  /** With an engine that accepts every statement, the intended
      `primary_key` rekeys any table, a key-only one included: the key
      first, the other columns after it, every row copied, the temporary
      table gone and the other tables untouched. */
  lemma PrimaryKeyIntendedRekeys(cat: Catalog, accepts: (Catalog, string) -> bool, table: string, column: string, ftype: string)
    requires forall c, s :: accepts(c, s)
    requires table in cat && OldName(table) !in cat && WellFormedTable(cat[table]) && column != "ROWID"
    ensures var r := PrimaryKeyIntended(cat, accepts, table, column, ftype);
      var rest := KeyRest(cat[table].columns, column);
      && r.0 && table in r.1 && OldName(table) !in r.1
      && r.1[table].columns == [Column(column, ftype)] + rest
      && Lite.Cells(r.1[table].rows) == Select(cat[table], [RowidOf(cat[table].columns, column)] + ColumnNames(rest))
      && forall t :: t in cat && t != table ==> t in r.1 && r.1[t] == cat[t]
  {
    var cols := cat[table].columns;
    var rowid := RowidOf(cols, column);
    var rest := KeyRest(cols, column);
    PrimaryKeyIntendedReachesCopy(cat, accepts, table, column, ftype);
    KeyedCopyApplies(cat, table, column, ftype);
    CopiedKeyed(cat, table, column, ftype);
    assert KeyNames(cols, column) == [rowid] + ColumnNames(rest);
    KeyCopyIntendedSucceeds(Keyed(cat, table, column, ftype), accepts, table, rowid, rest);
  }
}
