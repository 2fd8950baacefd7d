/** The database handle (`lite/lite.py`): the type tables, the handle's
    state (the current database file and the databases that exist), the
    `execute` primitive every manager goes through, and the `fetch`,
    `schema` and `new_db` operations. */
module Lite {
  import opened Wrappers
  import opened Engine
  import Text

  /** The five SQLite storage classes, in the source's order. */
  const GENERAL: seq<string> := ["NULL", "INTEGER", "REAL", "TEXT", "BLOB"]

  /** Declared-type synonyms grouped by affinity, in the source's order. The
      empty type in the NONE group stands for "no type given". */
  const AFFINITY: seq<(string, seq<string>)> := [
    ("INTEGER", ["INTEGER", "TINYINT", "SMALLINT", "MEDIUMINT", "BIGINT", "UNSIGNED BIG INT", "INT2", "INT8"]),
    ("TEXT", ["CHARACTER(20)", "VARCHAR(255)", "VARYING CHARACTER(255)", "NCHAR(55)", "NATIVE CHARACTER(70)",
              "NVARCHAR(100)", "TEXT", "CLOB"]),
    ("NONE", ["BLOB", ""]),
    ("REAL", ["REAL", "DOUBLE", "DOUBLE PRECISION", "FLOAT"]),
    ("NUMERIC", ["DECIMAL(10,5)", "BOOLEAN", "DATE", "DATETIME"])
  ]

  /** The storage classes the table manager falls back on. */
  lemma GeneralTypes()
    ensures |GENERAL| == 5
    ensures GENERAL[0] == "NULL" && GENERAL[1] == "INTEGER" && GENERAL[2] == "REAL"
    ensures GENERAL[3] == "TEXT" && GENERAL[4] == "BLOB"
  {
  }

  /** Five affinity groups; the NONE group admits the empty type. */
  lemma AffinityGroups()
    ensures |AFFINITY| == 5
    ensures AFFINITY[0].0 == "INTEGER" && AFFINITY[1].0 == "TEXT" && AFFINITY[2].0 == "NONE"
    ensures AFFINITY[3].0 == "REAL" && AFFINITY[4].0 == "NUMERIC"
    ensures "" in AFFINITY[2].1
  {
  }

  /** The TEXT group lists a length-carrying VARCHAR second. */
  lemma VarcharListed()
    ensures |AFFINITY| == 5 && |AFFINITY[1].1| == 8 && AFFINITY[1].1[1] == "VARCHAR(255)"
  {
  }

  // ---------------------------------------------------------------------
  // fetch

  /** The `get` argument of `fetch`: a string or an integer. */
  datatype Get = Str(s: string) | Num(n: int)

  /** What `fetch` returns: False for a missing table, a list of rows, or the
      one-element list `[cursor.fetchone()]`, whose element is None when the
      table is empty. */
  datatype Fetched = NotFound | Rows(rows: seq<seq<Value>>) | One(first: Option<seq<Value>>)

  predicate IsDigit(c: char) { '0' <= c <= '9' }

  predicate AllDigits(s: string) {
    forall i :: 0 <= i < |s| ==> IsDigit(s[i])
  }

  function DigitsValue(ds: string): nat
    requires AllDigits(ds)
    decreases |ds|
  {
    if ds == [] then 0 else DigitsValue(ds[..|ds| - 1]) * 10 + (ds[|ds| - 1] as int - '0' as int)
  }

  /** `int(s)` on a string: surrounding whitespace, an optional sign, and at
      least one decimal digit; anything else is a ValueError (None). */
  function ParseInt(s: string): Option<int> {
    var t := Text.Strip(s);
    if |t| > 0 && (t[0] == '+' || t[0] == '-') then
      var ds := t[1..];
      if |ds| > 0 && AllDigits(ds) then
        var v: int := DigitsValue(ds);
        Some(if t[0] == '-' then -v else v)
      else None
    else if |t| > 0 && AllDigits(t) then Some(DigitsValue(t))
    else None
  }

  function DigitChar(d: nat): char
    requires d < 10
  {
    ('0' as int + d) as char
  }

  function NatString(n: nat): (r: string)
    ensures |r| > 0 && AllDigits(r)
    decreases n
  {
    if n < 10 then [DigitChar(n)] else NatString(n / 10) + [DigitChar(n % 10)]
  }

  /** `str(n)` for an integer. */
  function IntString(n: int): string {
    if n < 0 then "-" + NatString(-n) else NatString(n)
  }

  lemma {:induction false} NatStringValue(n: nat)
    ensures DigitsValue(NatString(n)) == n
    decreases n
  {
    if n >= 10 {
      NatStringValue(n / 10);
      var s := NatString(n);
      assert s[..|s| - 1] == NatString(n / 10);
    }
  }

  lemma DigitsNotSpace(ds: string)
    requires |ds| > 0 && AllDigits(ds)
    ensures !Text.IsSpace(ds[0]) && !Text.IsSpace(ds[|ds| - 1])
  {
    assert IsDigit(ds[0]) && IsDigit(ds[|ds| - 1]);
  }

  /** `int(str(n)) == n`. */
  lemma ParseIntString(n: int)
    ensures ParseInt(IntString(n)) == Some(n)
  {
    var s := IntString(n);
    if n < 0 {
      var ds := NatString(-n);
      NatStringValue(-n);
      DigitsNotSpace(ds);
      assert s == "-" + ds;
      assert s[|s| - 1] == ds[|ds| - 1];
      Text.StripUnchanged(s);
      assert s[1..] == ds;
      assert s[0] == '-';
    } else {
      NatStringValue(n);
      DigitsNotSpace(s);
      Text.StripUnchanged(s);
      assert s[0] != '+' && s[0] != '-' by { assert IsDigit(s[0]); }
    }
  }

  /** The integer `int(get)` yields, or None where it raises ValueError. */
  function IntOf(get: Get): Option<int> {
    match get
    case Num(n) => Some(n)
    case Str(s) => ParseInt(s)
  }

  /** `cursor.fetchmany(n)`: at most n rows; a size below one never stops the
      row-counting loop, so every row is returned. */
  function FetchMany(rows: seq<seq<Value>>, n: int): seq<seq<Value>> {
    if n <= 0 || |rows| <= n then rows else rows[..n]
  }

  function Cells(rows: seq<Row>): (r: seq<seq<Value>>)
    ensures |r| == |rows| && forall i :: 0 <= i < |rows| ==> r[i] == rows[i].cells
  {
    seq(|rows|, i requires 0 <= i < |rows| => rows[i].cells)
  }

  /** `DB.fetch(table, get)` over the current catalog. */
  function Fetch(cat: Catalog, table: string, get: Get): (r: Outcome<Fetched>)
    ensures table !in cat ==> r == Return(NotFound)
    ensures table in cat ==> (r.Raise? <==> get != Str("*") && get != Str("1") && IntOf(get).None?)
    ensures r.Raise? ==> r.error == AssertionError
    ensures r.Return? && r.value.Rows? ==>
      |r.value.rows| <= |cat[table].rows| &&
      forall i :: 0 <= i < |r.value.rows| ==> r.value.rows[i] == cat[table].rows[i].cells
    ensures table in cat && get == Str("*") ==> r == Return(Rows(Cells(cat[table].rows)))
    ensures table in cat && get == Str("1") ==>
      r == Return(One(if cat[table].rows == [] then None else Some(cat[table].rows[0].cells)))
    ensures table in cat && get != Str("*") && get != Str("1") && IntOf(get).Some? && IntOf(get).value > 0 ==>
      r.Return? && r.value.Rows? &&
      |r.value.rows| == if IntOf(get).value < |cat[table].rows| then IntOf(get).value else |cat[table].rows|
  {
    if table !in cat then Return(NotFound)
    else if get != Str("*") && get != Str("1") && IntOf(get).None? then Raise(AssertionError)
    else
      var rows := Cells(cat[table].rows);
      if get == Str("*") then Return(Rows(rows))
      else if get == Str("1") then Return(One(if rows == [] then None else Some(rows[0])))
      else Return(Rows(FetchMany(rows, IntOf(get).value)))
  }

  /** The text of a count other than 1 is neither of `fetch`'s markers and
      reads back as the count. */
  lemma IntStringNotMarker(n: int)
    requires n != 1
    ensures IntString(n) != "1" && IntString(n) != "*"
    ensures IntOf(Str(IntString(n))) == Some(n)
  {
    var s := IntString(n);
    ParseIntString(n);
    ParseIntString(1);
    assert IntString(1) == "1";
    assert s != "*" by {
      if n < 0 { assert s[0] == '-'; } else { assert IsDigit(s[0]); }
    }
  }

  /** A count written as a string fetches what the integer fetches, except
      for "1", which goes through `fetchone`. */
  lemma FetchTextAsNumber(cat: Catalog, table: string, n: int)
    requires n != 1
    ensures Fetch(cat, table, Str(IntString(n))) == Fetch(cat, table, Num(n))
  {
    IntStringNotMarker(n);
  }

  /** "1" and 1 differ on an empty table: `[None]` against `[]`. */
  lemma FetchOneOnEmptyTable(cat: Catalog, table: string)
    requires table in cat && cat[table].rows == []
    ensures Fetch(cat, table, Str("1")) == Return(One(None))
    ensures Fetch(cat, table, Num(1)) == Return(Rows([]))
  {
  }

  // ---------------------------------------------------------------------
  // The handle

  /** Two updates of the current database's catalog are one update. */
  lemma UpdateTwice(files: map<string, Catalog>, name: string, a: Catalog, b: Catalog)
    ensures files[name := a][name := b] == files[name := b]
  {
  }

  /** `lite.DB`: the current database file and the database files that
      exist, each with its catalog. `accepts` is the engine's verdict on a
      statement text; `selects` its reading of a WHERE clause on a row. */
  class DB {
    var currentDb: string
    var files: map<string, Catalog>
    const accepts: (Catalog, string) -> bool
    const selects: (string, Row) -> bool

    ghost predicate Valid()
      reads this
    {
      currentDb in files && forall p :: p in files ==> WellFormed(files[p])
    }

    /** The catalog of the current database. */
    function Current(): Catalog
      reads this
      requires currentDb in files
    {
      files[currentDb]
    }

    /** `DB.TABLES`: the names of the current database's tables. */
    function TableNames(): set<string>
      reads this
      requires currentDb in files
    {
      files[currentDb].Keys
    }

    /** `DB(name)`: bind `name`, creating an empty database there when no
      file exists. */
    constructor (name: string, existing: map<string, Catalog>, accepts: (Catalog, string) -> bool, selects: (string, Row) -> bool)
      requires forall p :: p in existing ==> WellFormed(existing[p])
      ensures Valid() && currentDb == name
      ensures files == if name in existing then existing else existing[name := map[]]
      ensures this.accepts == accepts && this.selects == selects
    {
      this.accepts := accepts;
      this.selects := selects;
      currentDb := name;
      files := if name in existing then existing else existing[name := map[]];
    }

    /** `DB.new_db(name)`: refuse an existing path; otherwise create an empty
      database and make it current. */
    method NewDb(name: string) returns (ok: bool)
      requires Valid()
      modifies this
      ensures Valid()
      ensures ok == (name !in old(files))
      ensures ok ==> currentDb == name && files == old(files)[name := map[]]
      ensures !ok ==> currentDb == old(currentDb) && files == old(files)
    {
      if name in files {
        return false;
      }
      files := files[name := map[]];
      currentDb := name;
      ok := true;
    }

    /** `DB.execute(statement)`: True and the statement's effect, or False
      and no change. */
    method Execute(stmt: string, e: Effect) returns (ok: bool)
      requires Valid()
      modifies this
      ensures Valid() && currentDb == old(currentDb)
      ensures (ok, Current()) == Exec(old(Current()), accepts, stmt, e)
      ensures files == old(files)[currentDb := Current()]
    {
      ApplyPreservesWellFormed(Current(), e);
      var r := Exec(Current(), accepts, stmt, e);
      files := files[currentDb := r.1];
      ok := r.0;
    }

    /** `DB.schema`: one entry per table, holding what `fields` reports for it. */
    method Schema() returns (data: map<string, seq<string>>)
      requires Valid()
      ensures data.Keys == TableNames()
      ensures forall t :: t in data ==> Fields(Current(), t, false) == NameList(data[t])
    {
      data := map[];
      var remaining := TableNames();
      while remaining != {}
        invariant remaining <= TableNames()
        invariant data.Keys == TableNames() - remaining
        invariant forall t :: t in data ==> Fields(Current(), t, false) == NameList(data[t])
        decreases remaining
      {
        var t :| t in remaining;
        var fields := Fields(Current(), t, false);
        data := data[t := fields.names];
        remaining := remaining - {t};
      }
    }
  }
}
