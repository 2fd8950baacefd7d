/** The record manager (`lite/_records.py`): `insert` pads the caller's list
    up to the column count and binds it to a list of `?` placeholders;
    `delete_record` turns an optional WHERE text into a clause. */
module Records {
  import opened Wrappers
  import opened Engine
  import Text
  import Lite

  // ---------------------------------------------------------------------
  // insert

  /** The caller's record list, which `insert` extends in place. */
  class Record {
    var values: seq<Value>

    constructor (values: seq<Value>)
      ensures this.values == values
    {
      this.values := values;
    }
  }

  /** The record after padding: `empty` appended until it holds `n` values;
      a record already that long is left as it is. */
  function Padded(record: seq<Value>, n: int, empty: Value): (r: seq<Value>)
    ensures |r| == if |record| < n then n else |record|
    ensures r[..|record|] == record
    ensures forall i :: |record| <= i < |r| ==> r[i] == empty
  {
    if |record| < n then record + seq(n - |record|, _ => empty) else record
  }

  /** The padding loop: append `empty` while the list is shorter than `n`. */
  method Pad(record: Record, n: int, empty: Value)
    modifies record
    ensures record.values == Padded(old(record.values), n, empty)
  {
    ghost var original := record.values;
    while |record.values| < n
      invariant |original| <= |record.values|
      invariant record.values[..|original|] == original
      invariant |original| < n ==> |record.values| <= n
      invariant |original| >= n ==> record.values == original
      invariant forall i :: |original| <= i < |record.values| ==> record.values[i] == empty
      decreases n - |record.values|
    {
      record.values := record.values + [empty];
    }
    assert record.values == Padded(original, n, empty);
  }

  /** `part * n` */
  function Repeat(part: string, n: nat): (r: string)
    ensures |r| == n * |part|
  {
    if n == 0 then "" else Repeat(part, n - 1) + part
  }

  /** `(n * "?,")[:-1]` */
  function Placeholders(n: nat): string {
    Text.DropLast(Repeat("?,", n))
  }

  lemma {:induction false} RepeatMarks(n: nat)
    ensures forall i :: 0 <= i < |Repeat("?,", n)| ==> Repeat("?,", n)[i] == if i % 2 == 0 then '?' else ','
    decreases n
  {
    if n > 0 {
      RepeatMarks(n - 1);
      var prev := Repeat("?,", n - 1);
      forall i | 0 <= i < |Repeat("?,", n)| ensures Repeat("?,", n)[i] == if i % 2 == 0 then '?' else ',' {
        if i >= |prev| {
          assert i == 2 * (n - 1) || i == 2 * (n - 1) + 1;
        }
      }
    }
  }

  /** n question marks with a comma between each two and none at the end. */
  lemma PlaceholdersShape(n: nat)
    ensures |Placeholders(n)| == if n == 0 then 0 else 2 * n - 1
    ensures forall i :: 0 <= i < |Placeholders(n)| ==> Placeholders(n)[i] == if i % 2 == 0 then '?' else ','
    ensures n > 0 ==> Placeholders(n)[|Placeholders(n)| - 1] == '?'
  {
    RepeatMarks(n);
  }

  function InsertStatement(table: string, n: nat): string {
    "INSERT INTO " + table + " VALUES (" + Placeholders(n) + ")"
  }

  /** `Records.insert(table, record, empty)`: the result, the catalog after
      it, and the caller's list after padding. */
  function InsertOutcome(cat: Catalog, accepts: (Catalog, string) -> bool, table: string,
                         record: seq<Value>, empty: Value): (r: (bool, Catalog, seq<Value>))
    ensures table !in cat ==> r == (false, cat, record)
    ensures table in cat ==> r.2 == Padded(record, |cat[table].columns|, empty)
    ensures table in cat && |record| > |cat[table].columns| ==> !r.0
    ensures r.0 <==> table in cat && |record| <= |cat[table].columns| && accepts(cat, InsertStatement(table, |r.2|))
    ensures r.0 ==> r.1 == cat[table := Table(cat[table].columns, cat[table].rows + [Row(NextRowid(cat[table].rows), r.2)])]
    ensures !r.0 ==> r.1 == cat
  {
    if table !in cat then (false, cat, record)
    else
      var padded := Padded(record, |Fields(cat, table, false).names|, empty);
      var res := Exec(cat, accepts, InsertStatement(table, |padded|), InsertRow(table, padded));
      (res.0, res.1, padded)
  }

  /** The imperative `insert`: the guard, the padding loop on the caller's
      list, the placeholders and one statement. */
  method Insert(db: Lite.DB, table: string, record: Record, empty: Value) returns (ok: bool)
    requires db.Valid()
    modifies db, record
    ensures db.Valid() && db.currentDb == old(db.currentDb)
    ensures (ok, db.Current(), record.values) == InsertOutcome(old(db.Current()), db.accepts, table, old(record.values), empty)
    ensures db.files == old(db.files)[db.currentDb := db.Current()]
  {
    if table !in db.TableNames() {
      return false;
    }
    var fields := |Fields(db.Current(), table, false).names|;
    Pad(record, fields, empty);
    var values := Placeholders(|record.values|);
    var code := "INSERT INTO " + table + " VALUES (" + values + ")";
    ok := db.Execute(code, InsertRow(table, record.values));
  }

  // ---------------------------------------------------------------------
  // delete_record

  /** The clause `delete_record` builds: empty for no text, otherwise `WHERE `
      and the lower-cased text after the first "where", up to the next one,
      stripped; IndexError when the text has no "where" at all. */
  function WhereClause(where: Option<string>): (r: Outcome<string>)
    ensures where.None? || where.value == "" ==> r == Return("")
    ensures r.Raise? <==> where.Some? && where.value != "" && Text.IndexOf(Text.Lower(where.value), "where").None?
    ensures r.Raise? ==> r.error == IndexError
  {
    if where.None? || where.value == "" then Return("")
    else
      var parts := Text.Split(Text.Lower(where.value), "where");
      Text.SplitSecond(Text.Lower(where.value), "where");
      if |parts| < 2 then Raise(IndexError)
      else Return("WHERE " + Text.Strip(parts[1]))
  }

  /** A non-empty clause starts with `WHERE `; what follows it has no
      upper-case letter and no further "where". */
  lemma WhereClauseText(w: string)
    requires WhereClause(Some(w)).Return? && w != ""
    ensures var c := WhereClause(Some(w)).value;
      && |c| >= 6 && c[..6] == "WHERE "
      && Text.NoUpperCase(c[6..])
      && forall j :: !Text.OccursAt(c[6..], "where", j)
  {
    var low := Text.Lower(w);
    Text.LowerNoUpperCase(w);
    Text.SplitSecond(low, "where");
    var piece := Text.Split(low, "where")[1];
    SecondPiece(low);
    StrippedPiece(piece);
    var c := WhereClause(Some(w)).value;
    assert c == "WHERE " + Text.Strip(piece);
    assert c[6..] == Text.Strip(piece);
  }

  /** The piece between the first and second "where" holds no "where" and
      no more upper case than the text. */
  lemma SecondPiece(low: string)
    requires Text.IndexOf(low, "where").Some? && Text.NoUpperCase(low)
    ensures |Text.Split(low, "where")| >= 2
    ensures var piece := Text.Split(low, "where")[1];
      Text.NoUpperCase(piece) && forall j :: !Text.OccursAt(piece, "where", j)
  {
    Text.SplitSecond(low, "where");
    var i := Text.IndexOf(low, "where").value;
    var rest := low[i + 5..];
    var piece := Text.Split(low, "where")[1];
    assert piece == Text.Split(rest, "where")[0] by {
      match Text.IndexOf(rest, "where")
      case None =>
      case Some(j) =>
    }
    Text.SplitHeadFree(rest, "where");
    assert Text.NoUpperCase(piece) by {
      match Text.IndexOf(rest, "where")
      case None =>
      case Some(j) =>
    }
  }

  /** Stripping keeps both facts. */
  lemma StrippedPiece(piece: string)
    requires Text.NoUpperCase(piece) && forall j :: !Text.OccursAt(piece, "where", j)
    ensures Text.NoUpperCase(Text.Strip(piece)) && forall j :: !Text.OccursAt(Text.Strip(piece), "where", j)
  {
    Text.StripAbsent(piece, "where");
    Text.StripNoUpper(piece);
  }

  function DeleteStatement(table: string, clause: string): string {
    "DELETE FROM " + table + " " + clause
  }

  /** The rows a DELETE with this clause removes: every row for the empty
      clause, otherwise the rows the engine selects. */
  function Doomed(selects: (string, Row) -> bool, clause: string): Row -> bool {
    row => clause == "" || selects(clause, row)
  }

  /** `Records.delete_record(table, where)`: the result (or IndexError) and
      the catalog afterwards. */
  function DeleteOutcome(cat: Catalog, accepts: (Catalog, string) -> bool, selects: (string, Row) -> bool,
                         table: string, where: Option<string>): (r: (Outcome<bool>, Catalog))
    ensures table !in cat ==> r == (Return(false), cat)
    ensures r.0.Raise? <==> table in cat && WhereClause(where).Raise?
    ensures r.0 != Return(true) ==> r.1 == cat
    ensures r.0 == Return(true) ==>
      && table in cat
      && r.1 == cat[table := Table(cat[table].columns, Keep(cat[table].rows, Doomed(selects, WhereClause(where).value)))]
  {
    if table !in cat then (Return(false), cat)
    else match WhereClause(where)
      case Raise(e) => (Raise(e), cat)
      case Return(clause) =>
        var res := Exec(cat, accepts, DeleteStatement(table, clause), DeleteRows(table, Doomed(selects, clause)));
        (Return(res.0), res.1)
  }

  /** Without a clause the statement is `DELETE FROM t ` and, when it runs,
      it empties the table. */
  lemma DeleteAll(cat: Catalog, accepts: (Catalog, string) -> bool, selects: (string, Row) -> bool,
                  table: string, where: Option<string>)
    requires table in cat && (where.None? || where.value == "")
    ensures var r := DeleteOutcome(cat, accepts, selects, table, where);
      && r.0 == Return(accepts(cat, "DELETE FROM " + table + " "))
      && (r.0 == Return(true) ==> r.1[table] == Table(cat[table].columns, []))
  {
    assert DeleteStatement(table, "") == "DELETE FROM " + table + " ";
    KeepAll(cat[table].rows, Doomed(selects, ""));
  }

  lemma {:induction false} KeepAll(rows: seq<Row>, doomed: Row -> bool)
    requires forall x :: doomed(x)
    ensures Keep(rows, doomed) == []
    decreases |rows|
  {
    if rows != [] {
      KeepAll(rows[1..], doomed);
    }
  }

  method DeleteRecord(db: Lite.DB, table: string, where: Option<string>) returns (r: Outcome<bool>)
    requires db.Valid()
    modifies db
    ensures db.Valid() && db.currentDb == old(db.currentDb)
    ensures (r, db.Current()) == DeleteOutcome(old(db.Current()), db.accepts, db.selects, table, where)
    ensures db.files == old(db.files)[db.currentDb := db.Current()]
  {
    if table !in db.TableNames() {
      return Return(false);
    }
    var clause := WhereClause(where);
    if clause.Raise? {
      return Raise(clause.error);
    }
    var ok := db.Execute(DeleteStatement(table, clause.value), DeleteRows(table, Doomed(db.selects, clause.value)));
    r := Return(ok);
  }

  // ---------------------------------------------------------------------
  // What the code evidently means

  /** As written, a condition without the keyword raises IndexError, although
      the keyword is documented as optional. */
  lemma WhereKeywordRequired(c: string)
    requires c != "" && forall i :: 0 <= i < |c| ==> c[i] != 'w' && c[i] != 'W'
    ensures WhereClause(Some(c)) == Raise(IndexError)
  {
    var low := Text.Lower(c);
    assert "where"[0] == 'w';
    forall i | 0 <= i < |low| ensures low[i] != 'w' {
      assert low[i] == Text.LowerChar(c[i]);
    }
    forall j ensures !Text.OccursAt(low, "where", j) {
      Text.OccursFirst(low, "where", j);
    }
  }

  /** The intended clause: the keyword, when the text starts with it, is
      dropped; the condition keeps its case. */
  function IntendedWhereClause(where: Option<string>): (r: string)
    ensures r != "" ==> |r| >= 6 && r[..6] == "WHERE "
  {
    if where.None? then ""
    else
      var t := Text.Strip(where.value);
      if t == "" then ""
      else if HasKeyword(t) then "WHERE " + Text.Strip(t[5..])
      else "WHERE " + t
  }

  /** The text opens with the word WHERE, in any case, followed by a space. */
  predicate HasKeyword(t: string) {
    |t| > 5 && Text.Lower(t[..5]) == "where" && Text.IsSpace(t[5])
  }

  /** With the intended clause the keyword is optional: a condition gives
      the same clause with or without `WHERE ` before it, and keeps its case. */
  lemma IntendedKeywordOptional(c: string)
    requires c != "" && !Text.IsSpace(c[0]) && !Text.IsSpace(c[|c| - 1]) && !HasKeyword(c)
    ensures IntendedWhereClause(Some(c)) == "WHERE " + c
    ensures IntendedWhereClause(Some("WHERE " + c)) == "WHERE " + c
  {
    Text.StripUnchanged(c);
    KeywordDropped(c);
  }

  /** The keyword and the one space after it are dropped. */
  lemma KeywordDropped(c: string)
    requires c != "" && !Text.IsSpace(c[0]) && !Text.IsSpace(c[|c| - 1])
    ensures IntendedWhereClause(Some("WHERE " + c)) == "WHERE " + c
  {
    var k := "WHERE " + c;
    KeywordPrefix(c);
    Text.StripUnchanged(k);
    StripOneSpace(c);
    assert Text.Strip(k) == k && HasKeyword(k);
    assert Text.Strip(k[5..]) == c;
  }

  lemma KeywordPrefix(c: string)
    requires c != "" && !Text.IsSpace(c[|c| - 1])
    ensures var k := "WHERE " + c;
      && HasKeyword(k) && k[5..] == " " + c
      && !Text.IsSpace(k[0]) && !Text.IsSpace(k[|k| - 1])
  {
    var k := "WHERE " + c;
    assert k[..5] == "WHERE";
    var low := Text.Lower("WHERE");
    assert low[0] == 'w' && low[1] == 'h' && low[2] == 'e' && low[3] == 'r' && low[4] == 'e';
    assert low == "where";
    assert k[5] == ' ';
    assert k[5..] == " " + c;
    assert k[|k| - 1] == c[|c| - 1];
  }

  lemma StripOneSpace(c: string)
    requires c != "" && !Text.IsSpace(c[0]) && !Text.IsSpace(c[|c| - 1])
    ensures Text.Strip(" " + c) == c
  {
    var s := " " + c;
    assert s[1..] == c;
    assert Text.StripLeft(s) == Text.StripLeft(c);
    Text.StripUnchanged(c);
  }
}
