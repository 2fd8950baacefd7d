/** The table manager (`lite/_tables.py`): `create` checks the field
    descriptors, collects the columns in an insertion-ordered dictionary and
    builds one CREATE TABLE statement; `drop` and `rename` guard on the
    current tables and hand one statement to the engine. */
module Tables {
  import opened Wrappers
  import opened Engine
  import Text
  import Lite

  /** A field descriptor: a bare column name, or a (name, type) pair. */
  datatype Field = Bare(name: string) | Pair(name: string, ftype: string)

  function FieldNames(fields: seq<Field>): (r: seq<string>)
    ensures |r| == |fields| && forall i :: 0 <= i < |fields| ==> r[i] == fields[i].name
  {
    seq(|fields|, i requires 0 <= i < |fields| => fields[i].name)
  }

  /** Python truthiness of the `pk` argument: given and not empty. */
  predicate Truthy(pk: Option<string>) {
    pk.Some? && pk.value != ""
  }

  // ---------------------------------------------------------------------
  // Step 1: every name in `uniques` and `null` must be a field

  /** `f in fields` on the raw descriptor list: only a bare name can match a
      string; a (name, type) pair never equals one. */
  predicate Declared(fields: seq<Field>, names: seq<string>) {
    forall u :: u in names ==> Bare(u) in fields
  }

  /** The nested loop over `uniques` and then `null`, stopping at the first
      undefined name. */
  method CheckDeclared(fields: seq<Field>, uniques: seq<string>, nullable: seq<string>) returns (ok: bool)
    ensures ok <==> Declared(fields, uniques) && Declared(fields, nullable)
  {
    var specific := [uniques, nullable];
    var s := 0;
    while s < |specific|
      invariant 0 <= s <= |specific|
      invariant forall k :: 0 <= k < s ==> Declared(fields, specific[k])
    {
      var names := specific[s];
      var i := 0;
      while i < |names|
        invariant 0 <= i <= |names|
        invariant forall k :: 0 <= k < i ==> Bare(names[k]) in fields
      {
        if Bare(names[i]) !in fields {
          return false;
        }
        i := i + 1;
      }
      s := s + 1;
    }
    assert Declared(fields, specific[0]) && Declared(fields, specific[1]);
    return true;
  }

  // ---------------------------------------------------------------------
  // Step 2: types

  /** The pre-`(` part of every affinity type, group after group. */
  function AffinityNames(): seq<string> {
    BaseNames(Lite.AFFINITY)
  }

  function BaseNames(groups: seq<(string, seq<string>)>): seq<string>
    decreases |groups|
  {
    if groups == [] then []
    else Bases(groups[0].1) + BaseNames(groups[1..])
  }

  /** `i.split('(')[0]` for each type: the longest prefix without `(`. */
  function Bases(types: seq<string>): (r: seq<string>)
    ensures |r| == |types|
    ensures forall i :: 0 <= i < |types| ==> r[i] <= types[i] && forall j :: !Text.OccursAt(r[i], "(", j)
    ensures forall i :: 0 <= i < |types| ==> r[i] == types[i] || Text.OccursAt(types[i], "(", |r[i]|)
  {
    BaseHeads(types);
    seq(|types|, i requires 0 <= i < |types| => Text.Split(types[i], "(")[0])
  }

  lemma BaseHeads(types: seq<string>)
    ensures forall i :: 0 <= i < |types| ==>
      var h := Text.Split(types[i], "(")[0];
      h <= types[i] && (forall j :: !Text.OccursAt(h, "(", j)) && (h == types[i] || Text.OccursAt(types[i], "(", |h|))
  {
    forall i | 0 <= i < |types| {
      Text.SplitHead(types[i], "(");
    }
  }

  /** An upper-cased type passes when it is a storage class or equals one of
      the `affinity` names (in `create`, always `AffinityNames()`). */
  predicate TypeAccepted(t: string, affinity: seq<string>) {
    t in Lite.GENERAL || t in affinity
  }

  predicate Accepted(f: Field, affinity: seq<string>) {
    f.Bare? || TypeAccepted(Text.Upper(f.ftype), affinity)
  }

  /** The type recorded for a field: INTEGER for a bare name equal to a
      truthy `pk`, TEXT for any other bare name, the upper-cased declared
      type for a pair. */
  function FieldType(f: Field, pk: Option<string>): (r: string)
    ensures Text.NoLowerCase(r)
  {
    match f
    case Bare(n) => if Truthy(pk) && n == pk.value then Lite.GENERAL[1] else Lite.GENERAL[3]
    case Pair(_, t) => Text.UpperNoLowerCase(t); Text.Upper(t)
  }

  /** `columns[name] = ctype` on an insertion-ordered dictionary: an existing
      key keeps its place and takes the new value, a new key goes last. */
  function Put(cols: seq<Column>, name: string, ctype: string): seq<Column>
    decreases |cols|
  {
    if cols == [] then [Column(name, ctype)]
    else if cols[0].name == name then [Column(name, ctype)] + cols[1..]
    else [cols[0]] + Put(cols[1..], name, ctype)
  }

  /** What a dictionary assignment does to the keys and to the values. */
  lemma PutFacts(cols: seq<Column>, name: string, ctype: string)
    requires DistinctNames(cols)
    ensures var r := Put(cols, name, ctype);
      && ColumnNames(r) == (if name in ColumnNames(cols) then ColumnNames(cols) else ColumnNames(cols) + [name])
      && DistinctNames(r)
      && (forall i :: 0 <= i < |r| && r[i].name != name ==> i < |cols| && r[i] == cols[i])
      && (forall i :: 0 <= i < |r| && r[i].name == name ==> r[i].ctype == ctype)
  {
    var r := Put(cols, name, ctype);
    PutNames(cols, name, ctype);
    PutOthers(cols, name, ctype);
    var before := ColumnNames(cols);
    var after := ColumnNames(r);
    forall i, j | 0 <= i < j < |r| ensures r[i].name != r[j].name {
      assert after[i] == r[i].name && after[j] == r[j].name;
      if j < |cols| {
        assert before[i] == cols[i].name && before[j] == cols[j].name;
      } else {
        assert after[j] == name && before[i] == cols[i].name;
      }
    }
    forall i | 0 <= i < |r| && r[i].name == name ensures r[i].ctype == ctype {
      PutKey(cols, name, ctype, i);
    }
  }

  /** The keys after `columns[name] = ctype`: unchanged, or `name` appended. */
  lemma {:induction false} PutNames(cols: seq<Column>, name: string, ctype: string)
    ensures ColumnNames(Put(cols, name, ctype)) ==
      (if name in ColumnNames(cols) then ColumnNames(cols) else ColumnNames(cols) + [name])
    decreases |cols|
  {
    if cols != [] {
      var tail := cols[1..];
      assert ColumnNames(cols) == [cols[0].name] + ColumnNames(tail);
      if cols[0].name == name {
        assert ColumnNames(Put(cols, name, ctype)) == [name] + ColumnNames(tail);
      } else {
        PutNames(tail, name, ctype);
        assert ColumnNames(Put(cols, name, ctype)) == [cols[0].name] + ColumnNames(Put(tail, name, ctype));
      }
    } else {
      assert ColumnNames(Put(cols, name, ctype)) == [name];
    }
  }

  /** Entries under other keys keep their place and their type. */
  lemma {:induction false} PutOthers(cols: seq<Column>, name: string, ctype: string)
    ensures var r := Put(cols, name, ctype);
      forall i :: 0 <= i < |r| && r[i].name != name ==> i < |cols| && r[i] == cols[i]
    decreases |cols|
  {
    if cols != [] && cols[0].name != name {
      PutOthers(cols[1..], name, ctype);
      var r := Put(cols, name, ctype);
      forall i | 0 < i < |r| && r[i].name != name ensures i < |cols| && r[i] == cols[i] {
        assert r[i] == Put(cols[1..], name, ctype)[i - 1];
      }
    }
  }

  /** With distinct keys, the entry under `name` has the new type. */
  lemma {:induction false} PutKey(cols: seq<Column>, name: string, ctype: string, i: nat)
    requires DistinctNames(cols)
    requires i < |Put(cols, name, ctype)| && Put(cols, name, ctype)[i].name == name
    ensures Put(cols, name, ctype)[i].ctype == ctype
    decreases |cols|
  {
    if cols != [] && cols[0].name != name && i > 0 {
      PutKey(cols[1..], name, ctype, i - 1);
    }
  }

  /** The `columns` dictionary after the loop over `fields`, or None when a
      pair's type is refused (the method returns False there). */
  function ColumnsOf(fields: seq<Field>, pk: Option<string>, affinity: seq<string>): Option<seq<Column>>
    decreases |fields|
  {
    if fields == [] then Some([])
    else match ColumnsOf(fields[..|fields| - 1], pk, affinity)
      case None => None
      case Some(cols) =>
        var f := fields[|fields| - 1];
        if !Accepted(f, affinity) then None else Some(Put(cols, f.name, FieldType(f, pk)))
  }

  /** The last descriptor naming `n`: the one whose type the dictionary keeps. */
  function LastWith(fields: seq<Field>, n: string): (r: Option<Field>)
    ensures r.Some? <==> n in FieldNames(fields)
    ensures r.Some? ==> r.value in fields && r.value.name == n
    decreases |fields|
  {
    if fields == [] then None
    else
      var init := fields[..|fields| - 1];
      assert FieldNames(fields) == FieldNames(init) + [fields[|fields| - 1].name];
      if fields[|fields| - 1].name == n then Some(fields[|fields| - 1]) else LastWith(init, n)
  }

  /** The loop fails exactly when some pair carries a refused type. */
  lemma {:induction false} ColumnsOfAccepted(fields: seq<Field>, pk: Option<string>, affinity: seq<string>)
    ensures ColumnsOf(fields, pk, affinity).Some? <==> forall i :: 0 <= i < |fields| ==> Accepted(fields[i], affinity)
    decreases |fields|
  {
    if fields != [] {
      var init := fields[..|fields| - 1];
      var f := fields[|fields| - 1];
      ColumnsOfAccepted(init, pk, affinity);
      var all := forall i :: 0 <= i < |fields| ==> Accepted(fields[i], affinity);
      var allInit := forall i :: 0 <= i < |init| ==> Accepted(init[i], affinity);
      assert all <==> allInit && Accepted(f, affinity) by {
        assert forall i :: 0 <= i < |init| ==> init[i] == fields[i];
      }
      assert ColumnsOf(fields, pk, affinity).Some? <==> ColumnsOf(init, pk, affinity).Some? && Accepted(f, affinity);
    }
  }

  /** The columns are the distinct field names in order of first occurrence;
      each keeps the type of the last descriptor naming it, and every type is
      upper case. */
  lemma ColumnsOfShape(fields: seq<Field>, pk: Option<string>, affinity: seq<string>)
    requires ColumnsOf(fields, pk, affinity).Some?
    ensures var cols := ColumnsOf(fields, pk, affinity).value;
      && ColumnNames(cols) == Text.Dedup(FieldNames(fields))
      && DistinctNames(cols)
      && forall i :: 0 <= i < |cols| ==>
           LastWith(fields, cols[i].name).Some? &&
           cols[i].ctype == FieldType(LastWith(fields, cols[i].name).value, pk) &&
           Text.NoLowerCase(cols[i].ctype)
  {
    ColumnsOfNames(fields, pk, affinity);
    ColumnsOfTypes(fields, pk, affinity);
  }

  /** The dictionary's names: each field name once, at its first place. */
  lemma {:induction false} ColumnsOfNames(fields: seq<Field>, pk: Option<string>, affinity: seq<string>)
    requires ColumnsOf(fields, pk, affinity).Some?
    ensures var cols := ColumnsOf(fields, pk, affinity).value;
      ColumnNames(cols) == Text.Dedup(FieldNames(fields)) && DistinctNames(cols)
    decreases |fields|
  {
    if fields != [] {
      var init := fields[..|fields| - 1];
      var f := fields[|fields| - 1];
      ColumnsOfNames(init, pk, affinity);
      var prev := ColumnsOf(init, pk, affinity).value;
      assert ColumnsOf(fields, pk, affinity).value == Put(prev, f.name, FieldType(f, pk));
      PutFacts(prev, f.name, FieldType(f, pk));
      var names := FieldNames(fields);
      assert names[..|names| - 1] == FieldNames(init);
      assert names[|names| - 1] == f.name;
    }
  }

  /** The dictionary's types: each name keeps the type of its last field. */
  lemma {:induction false} ColumnsOfTypes(fields: seq<Field>, pk: Option<string>, affinity: seq<string>)
    requires ColumnsOf(fields, pk, affinity).Some?
    ensures var cols := ColumnsOf(fields, pk, affinity).value;
      forall i :: 0 <= i < |cols| ==>
        LastWith(fields, cols[i].name).Some? &&
        cols[i].ctype == FieldType(LastWith(fields, cols[i].name).value, pk) &&
        Text.NoLowerCase(cols[i].ctype)
    decreases |fields|
  {
    if fields != [] {
      var init := fields[..|fields| - 1];
      var f := fields[|fields| - 1];
      ColumnsOfTypes(init, pk, affinity);
      ColumnsOfNames(init, pk, affinity);
      var prev := ColumnsOf(init, pk, affinity).value;
      var cols := ColumnsOf(fields, pk, affinity).value;
      assert cols == Put(prev, f.name, FieldType(f, pk));
      PutFacts(prev, f.name, FieldType(f, pk));
      forall i | 0 <= i < |cols|
        ensures LastWith(fields, cols[i].name).Some?
        ensures cols[i].ctype == FieldType(LastWith(fields, cols[i].name).value, pk)
        ensures Text.NoLowerCase(cols[i].ctype)
      {
        if cols[i].name != f.name {
          assert cols[i] == prev[i];
        }
      }
    }
  }

  /** One more accepted field is put into the dictionary. */
  lemma ColumnsOfStep(fields: seq<Field>, i: nat, pk: Option<string>, affinity: seq<string>, cols: seq<Column>)
    requires i < |fields| && ColumnsOf(fields[..i], pk, affinity) == Some(cols) && Accepted(fields[i], affinity)
    ensures ColumnsOf(fields[..i + 1], pk, affinity) == Some(Put(cols, fields[i].name, FieldType(fields[i], pk)))
  {
    assert fields[..i + 1][..i] == fields[..i];
  }

  /** The inner search of the affinity names, stopping at the first match. */
  method SearchAffinity(fieldType: string, affinity: seq<string>) returns (accepted: bool)
    ensures accepted <==> fieldType in affinity
  {
    accepted := false;
    var j := 0;
    while j < |affinity|
      invariant 0 <= j <= |affinity|
      invariant fieldType !in affinity[..j]
    {
      if fieldType == affinity[j] {
        accepted := true;
        break;
      }
      assert affinity[..j + 1] == affinity[..j] + [affinity[j]];
      j := j + 1;
    }
    assert !accepted ==> affinity[..j] == affinity;
  }

  /** One pass of the loop over `fields`: a bare name takes INTEGER or TEXT,
      a pair its upper-cased type, which must be a storage class or be found
      among the affinity names. */
  method PutField(field: Field, pk: Option<string>, affinity: seq<string>, columns: seq<Column>) returns (r: Option<seq<Column>>)
    ensures r.None? <==> !Accepted(field, affinity)
    ensures r.Some? ==> r.value == Put(columns, field.name, FieldType(field, pk))
  {
    match field {
      case Bare(n) =>
        var ctype := if Truthy(pk) && n == pk.value then Lite.GENERAL[1] else Lite.GENERAL[3];
        r := Some(Put(columns, n, ctype));
      case Pair(n, t) =>
        var fieldType := Text.Upper(t);
        if fieldType !in Lite.GENERAL {
          var accepted := SearchAffinity(fieldType, affinity);
          if !accepted {
            return None;
          }
        }
        r := Some(Put(columns, n, fieldType));
    }
  }

  /** The loop over `fields` that fills `columns`. */
  method BuildColumns(fields: seq<Field>, pk: Option<string>, affinity: seq<string>) returns (r: Option<seq<Column>>)
    ensures r == ColumnsOf(fields, pk, affinity)
  {
    var columns: seq<Column> := [];
    var i := 0;
    while i < |fields|
      invariant 0 <= i <= |fields|
      invariant ColumnsOf(fields[..i], pk, affinity) == Some(columns)
    {
      var next := PutField(fields[i], pk, affinity, columns);
      if next.None? {
        ColumnsOfAccepted(fields, pk, affinity);
        return None;
      }
      ColumnsOfStep(fields, i, pk, affinity, columns);
      columns := next.value;
      i := i + 1;
    }
    assert fields[..i] == fields;
    r := Some(columns);
  }

  // ---------------------------------------------------------------------
  // Step 3: the statement

  /** The synthetic key line, without its trailing comma. */
  const ID_LINE := "\n   id INTEGER NOT NULL PRIMARY KEY"

  /** `del columns[pk]` for a truthy `pk` that names a column. */
  function Remaining(cols: seq<Column>, pk: Option<string>): (r: seq<Column>)
    ensures Truthy(pk) ==> pk.value !in ColumnNames(r)
    ensures !Truthy(pk) ==> r == cols
  {
    if Truthy(pk) && pk.value in ColumnNames(cols) then RemoveNameFacts(cols, pk.value); RemoveName(cols, pk.value) else cols
  }

  function RemoveName(cols: seq<Column>, n: string): seq<Column>
    decreases |cols|
  {
    if cols == [] then []
    else (if cols[0].name == n then [] else [cols[0]]) + RemoveName(cols[1..], n)
  }

  /** `del columns[n]`: the columns other than `n`, in their order. */
  lemma RemoveNameFacts(cols: seq<Column>, n: string)
    ensures var r := RemoveName(cols, n);
      && n !in ColumnNames(r)
      && (forall c :: c in r <==> c in cols && c.name != n)
      && (DistinctNames(cols) ==> DistinctNames(r))
      && (n !in ColumnNames(cols) ==> r == cols)
  {
    var r := RemoveName(cols, n);
    RemoveNameMembers(cols, n);
    forall k | 0 <= k < |r| ensures ColumnNames(r)[k] != n {
      assert r[k] in r;
    }
    if DistinctNames(cols) {
      RemoveNameDistinct(cols, n);
    }
    if n !in ColumnNames(cols) {
      RemoveNameAbsent(cols, n);
    }
  }

  lemma {:induction false} RemoveNameMembers(cols: seq<Column>, n: string)
    ensures forall c :: c in RemoveName(cols, n) <==> c in cols && c.name != n
    decreases |cols|
  {
    if cols != [] {
      RemoveNameMembers(cols[1..], n);
      assert forall c :: c in cols <==> c == cols[0] || c in cols[1..];
    }
  }

  lemma {:induction false} RemoveNameDistinct(cols: seq<Column>, n: string)
    requires DistinctNames(cols)
    ensures DistinctNames(RemoveName(cols, n))
    decreases |cols|
  {
    if cols != [] {
      var tail := cols[1..];
      var rest := RemoveName(tail, n);
      RemoveNameDistinct(tail, n);
      RemoveNameMembers(tail, n);
      if cols[0].name != n {
        var r := [cols[0]] + rest;
        assert RemoveName(cols, n) == r;
        forall i, j | 0 <= i < j < |r| ensures r[i].name != r[j].name {
          if i == 0 {
            assert rest[j - 1] in tail;
            var k :| 0 <= k < |tail| && tail[k] == rest[j - 1];
            assert cols[k + 1].name != cols[0].name;
          } else {
            assert r[i] == rest[i - 1] && r[j] == rest[j - 1];
          }
        }
      }
    }
  }

  lemma {:induction false} RemoveNameAbsent(cols: seq<Column>, n: string)
    requires n !in ColumnNames(cols)
    ensures RemoveName(cols, n) == cols
    decreases |cols|
  {
    if cols != [] {
      assert ColumnNames(cols) == [cols[0].name] + ColumnNames(cols[1..]);
      RemoveNameAbsent(cols[1..], n);
    }
  }

  /** One column line: name, type and NULL or NOT NULL. */
  function EntryLine(c: Column, nullable: seq<string>): string {
    "\n   " + c.name + " " + c.ctype + " " + (if c.name in nullable then "NULL" else "NOT NULL")
  }

  function EntryLines(cols: seq<Column>, nullable: seq<string>): (r: seq<string>)
    ensures |r| == |cols| && forall i :: 0 <= i < |cols| ==> r[i] == EntryLine(cols[i], nullable)
  {
    seq(|cols|, i requires 0 <= i < |cols| => EntryLine(cols[i], nullable))
  }

  /** The one composite UNIQUE constraint. */
  function UniqueLine(uniques: seq<string>): string {
    "\n   UNIQUE(" + Text.Join(uniques, ",") + ")"
  }

  /** The lines of the statement, in order: the synthetic key (with `auto`
      and no truthy `pk`), one line per remaining column, the UNIQUE line. */
  function CreateLines(kept: seq<Column>, auto: bool, nullable: seq<string>, pk: Option<string>, uniques: seq<string>): seq<string> {
    IdLines(auto, pk)
    + EntryLines(kept, nullable)
    + (if |uniques| > 0 then [UniqueLine(uniques)] else [])
  }

  /** The statement text; building it raises NameError when a column equals
      an untruthy `pk` (the empty name), since the line for the key refers
      to a variable that was never assigned. */
  function CreateStatement(table: string, cols: seq<Column>, auto: bool, nullable: seq<string>,
                           pk: Option<string>, uniques: seq<string>): (r: Outcome<string>)
    ensures r.Raise? <==> pk == Some("") && "" in ColumnNames(cols)
    ensures r.Raise? ==> r.error == NameError
  {
    var kept := Remaining(cols, pk);
    if pk.Some? && pk.value in ColumnNames(kept) then Raise(NameError)
    else
      var lines := CreateLines(kept, auto, nullable, pk, uniques);
      Return(Text.DropLast("CREATE TABLE " + table + " (" + Text.Terminated(lines, ",")) + "\n);")
  }

  /** The statement is the table name and its lines joined by commas inside
      `(` and `\n);`; with no line at all the parenthesis is cut instead. */
  lemma CreateStatementText(table: string, cols: seq<Column>, auto: bool, nullable: seq<string>,
                            pk: Option<string>, uniques: seq<string>)
    requires CreateStatement(table, cols, auto, nullable, pk, uniques).Return?
    ensures var text := CreateStatement(table, cols, auto, nullable, pk, uniques).value;
      var lines := CreateLines(Remaining(cols, pk), auto, nullable, pk, uniques);
      && (lines != [] ==> text == "CREATE TABLE " + table + " (" + Text.Join(lines, ",") + "\n);")
      && (lines == [] ==> text == "CREATE TABLE " + table + " \n);")
  {
    var lines := CreateLines(Remaining(cols, pk), auto, nullable, pk, uniques);
    StatementShape(table, lines);
  }

  /** The cut of the last character of `CREATE TABLE t (` followed by the
      comma-terminated lines. */
  lemma StatementShape(table: string, lines: seq<string>)
    ensures var text := Text.DropLast("CREATE TABLE " + table + " (" + Text.Terminated(lines, ",")) + "\n);";
      && (lines != [] ==> text == "CREATE TABLE " + table + " (" + Text.Join(lines, ",") + "\n);")
      && (lines == [] ==> text == "CREATE TABLE " + table + " \n);")
  {
    if lines != [] {
      Text.TerminatedJoin(lines, ",");
      var j := Text.Join(lines, ",");
      Text.DropLastAppend("CREATE TABLE " + table + " (" + j, ",");
      assert "CREATE TABLE " + table + " (" + Text.Terminated(lines, ",") == ("CREATE TABLE " + table + " (" + j) + ",";
    } else {
      assert "CREATE TABLE " + table + " (" == "CREATE TABLE " + table + " " + "(";
    }
  }

  /** The order of the lines: the key line first, then the columns in
      dictionary order, then the UNIQUE line, which lists `uniques` as given. */
  lemma CreateLinesOrder(kept: seq<Column>, auto: bool, nullable: seq<string>, pk: Option<string>, uniques: seq<string>)
    ensures var lines := CreateLines(kept, auto, nullable, pk, uniques);
      var off := if auto && !Truthy(pk) then 1 else 0;
      && |lines| == off + |kept| + (if |uniques| > 0 then 1 else 0)
      && (auto && !Truthy(pk) ==> lines[0] == ID_LINE)
      && (forall i :: 0 <= i < |kept| ==> lines[off + i] == EntryLine(kept[i], nullable))
      && (|uniques| > 0 ==> lines[|lines| - 1] == "\n   UNIQUE(" + Text.Join(uniques, ",") + ")")
  {
  }

  /** The UNIQUE loop followed by the cut of its last comma and `),`. */
  lemma UniqueClause(uniques: seq<string>)
    requires |uniques| > 0
    ensures Text.DropLast("\n   UNIQUE(" + Text.Terminated(uniques, ",")) + ")," == UniqueLine(uniques) + ","
  {
    var head := "\n   UNIQUE(";
    var j := Text.Join(uniques, ",");
    Text.TerminatedJoin(uniques, ",");
    assert Text.Terminated(uniques, ",") == j + ",";
    Text.DropLastAppend(head, j + ",");
    assert Text.DropLast(j + ",") == j;
    assert Text.DropLast(head + Text.Terminated(uniques, ",")) == head + j;
    assert UniqueLine(uniques) == head + j + ")";
  }

  lemma TerminatedSnoc(parts: seq<string>, x: string, sep: string)
    ensures Text.Terminated(parts + [x], sep) == Text.Terminated(parts, sep) + x + sep
  {
    assert (parts + [x])[..|parts|] == parts;
  }

  function IdLines(auto: bool, pk: Option<string>): seq<string> {
    if auto && !Truthy(pk) then [ID_LINE] else []
  }

  /** The column loop: one NULL or NOT NULL line and a comma per column; it
      raises NameError on reaching a column named like `pk`, which only an
      untruthy `pk` can leave among the columns. */
  method EntriesText(cols: seq<Column>, nullable: seq<string>, pk: Option<string>) returns (r: Outcome<string>)
    ensures r.Raise? <==> pk.Some? && pk.value in ColumnNames(cols)
    ensures r.Raise? ==> r.error == NameError
    ensures r.Return? ==> r.value == Text.Terminated(EntryLines(cols, nullable), ",")
  {
    ghost var entries := EntryLines(cols, nullable);
    var codes := "";
    for i := 0 to |cols|
      invariant codes == Text.Terminated(entries[..i], ",")
      invariant pk.Some? ==> pk.value !in ColumnNames(cols)[..i]
    {
      if pk.Some? && cols[i].name == pk.value {
        assert ColumnNames(cols)[i] == pk.value;
        return Raise(NameError);
      }
      var isNull := if cols[i].name in nullable then "NULL" else "NOT NULL";
      var line := "\n   " + cols[i].name + " " + cols[i].ctype + " " + isNull;
      assert line == entries[i];
      Text.TerminatedPrefix(entries, i, ",");
      assert ColumnNames(cols)[..i + 1] == ColumnNames(cols)[..i] + [cols[i].name];
      codes := codes + line + ",";
    }
    assert entries[..|cols|] == entries;
    assert ColumnNames(cols)[..|cols|] == ColumnNames(cols);
    r := Return(codes);
  }

  /** The loop that opens the UNIQUE constraint and appends each name and a
      comma. */
  method UniqueText(uniques: seq<string>) returns (unique: string)
    ensures unique == "\n   UNIQUE(" + Text.Terminated(uniques, ",")
  {
    unique := "\n   UNIQUE(";
    var j := 0;
    while j < |uniques|
      invariant 0 <= j <= |uniques|
      invariant unique == "\n   UNIQUE(" + Text.Terminated(uniques[..j], ",")
    {
      Text.TerminatedPrefix(uniques, j, ",");
      unique := unique + uniques[j] + ",";
      j := j + 1;
    }
    assert uniques[..j] == uniques;
  }

  /** The UNIQUE text, less its last comma, closed and followed by a comma,
      extends the statement by one terminated line. */
  lemma StatementUnique(codes: string, prefix: string, lines: seq<string>, uniques: seq<string>, unique: string)
    requires |uniques| > 0
    requires codes == prefix + Text.Terminated(lines, ",")
    requires unique == "\n   UNIQUE(" + Text.Terminated(uniques, ",")
    ensures codes + Text.DropLast(unique) + ")," == prefix + Text.Terminated(lines + [UniqueLine(uniques)], ",")
  {
    UniqueClause(uniques);
    TerminatedSnoc(lines, UniqueLine(uniques), ",");
    assert codes + Text.DropLast(unique) + ")," == codes + (Text.DropLast(unique) + "),");
  }

  lemma TerminatedOne(x: string, sep: string)
    ensures Text.Terminated([x], sep) == x + sep
  {
    assert [x][..0] == [];
  }

  /** Appending a terminated run of lines to a statement prefix. */
  lemma StatementAppend(codes: string, prefix: string, lines: seq<string>, more: seq<string>)
    requires codes == prefix + Text.Terminated(lines, ",")
    ensures codes + Text.Terminated(more, ",") == prefix + Text.Terminated(lines + more, ",")
  {
    Text.TerminatedAppend(lines, more, ",");
  }

  /** The string-building part of `create`: the optional key line, the column
      loop, the UNIQUE loop and the final cut of the last comma. */
  method BuildStatement(table: string, columns: seq<Column>, auto: bool, nullable: seq<string>,
                        pk: Option<string>, uniques: seq<string>) returns (r: Outcome<string>)
    ensures r == CreateStatement(table, columns, auto, nullable, pk, uniques)
  {
    var codes := "CREATE TABLE " + table + " (";
    ghost var prefix := codes;
    ghost var lines: seq<string> := [];
    var cols := columns;
    if auto && !Truthy(pk) {
      TerminatedOne(ID_LINE, ",");
      StatementAppend(codes, prefix, [], [ID_LINE]);
      codes := codes + ID_LINE + ",";
      lines := [ID_LINE];
    } else if Truthy(pk) {
      if pk.value in ColumnNames(cols) {
        cols := RemoveName(cols, pk.value);
      }
    }
    assert cols == Remaining(columns, pk);
    assert lines == IdLines(auto, pk);
    var entries := EntriesText(cols, nullable, pk);
    if entries.Raise? {
      return Raise(entries.error);
    }
    StatementAppend(codes, prefix, lines, EntryLines(cols, nullable));
    codes := codes + entries.value;
    lines := lines + EntryLines(cols, nullable);
    if |uniques| > 0 {
      var unique := UniqueText(uniques);
      StatementUnique(codes, prefix, lines, uniques, unique);
      codes := codes + Text.DropLast(unique) + "),";
      lines := lines + [UniqueLine(uniques)];
    }
    assert lines == CreateLines(cols, auto, nullable, pk, uniques);
    codes := Text.DropLast(codes) + "\n);";
    r := Return(codes);
  }

  // ---------------------------------------------------------------------
  // The whole of `create`

  /** The columns the statement declares: `id INTEGER` first with `auto` and
      no truthy `pk`, then the dictionary without the key. */
  function DeclaredColumns(cols: seq<Column>, auto: bool, pk: Option<string>): seq<Column> {
    (if auto && !Truthy(pk) then [Column("id", Lite.GENERAL[1])] else []) + Remaining(cols, pk)
  }

  /** Without `auto`, the declared columns are the dictionary less the key. */
  lemma DeclaredWithoutAuto(cols: seq<Column>, pk: Option<string>)
    ensures DeclaredColumns(cols, false, pk) == Remaining(cols, pk)
  {
    assert [] + Remaining(cols, pk) == Remaining(cols, pk);
  }

  /** `Tables.create` against the current catalog: the result (or the
      exception) and the catalog afterwards. */
  function CreateOutcome(cat: Catalog, accepts: (Catalog, string) -> bool, affinity: seq<string>, table: string,
                         fields: seq<Field>, auto: bool, nullable: seq<string>, pk: Option<string>, uniques: seq<string>): (r: (Outcome<bool>, Catalog))
    ensures table in cat ==> r == (Return(false), cat)
    ensures !(Declared(fields, uniques) && Declared(fields, nullable)) ==> r == (Return(false), cat)
    ensures (exists i :: 0 <= i < |fields| && !Accepted(fields[i], affinity)) ==> r == (Return(false), cat)
    ensures r.0.Raise? ==> r.0.error == NameError && pk == Some("") && "" in FieldNames(fields)
    ensures r.0 != Return(true) ==> r.1 == cat
  {
    ColumnsOfAccepted(fields, pk, affinity);
    if table in cat then (Return(false), cat)
    else if !(Declared(fields, uniques) && Declared(fields, nullable)) then (Return(false), cat)
    else match ColumnsOf(fields, pk, affinity)
      case None => (Return(false), cat)
      case Some(cols) =>
        match CreateStatement(table, cols, auto, nullable, pk, uniques)
        case Raise(e) =>
          ColumnsOfShape(fields, pk, affinity);
          (Raise(e), cat)
        case Return(text) =>
          var res := Exec(cat, accepts, text, CreateTable(table, DeclaredColumns(cols, auto, pk)));
          (Return(res.0), res.1)
  }

  /** When every guard passes and the statement builds, `create` reports
      what `execute` makes of it. */
  lemma CreateExecutes(cat: Catalog, accepts: (Catalog, string) -> bool, affinity: seq<string>, table: string,
                       fields: seq<Field>, auto: bool, nullable: seq<string>, pk: Option<string>, uniques: seq<string>)
    requires table !in cat && Declared(fields, uniques) && Declared(fields, nullable)
    requires ColumnsOf(fields, pk, affinity).Some?
    requires CreateStatement(table, ColumnsOf(fields, pk, affinity).value, auto, nullable, pk, uniques).Return?
    ensures var cols := ColumnsOf(fields, pk, affinity).value;
      var text := CreateStatement(table, cols, auto, nullable, pk, uniques).value;
      var res := Exec(cat, accepts, text, CreateTable(table, DeclaredColumns(cols, auto, pk)));
      CreateOutcome(cat, accepts, affinity, table, fields, auto, nullable, pk, uniques) == (Return(res.0), res.1)
  {
  }

  /** A successful `create` adds one empty table, whose columns are the
      declared ones, and touches no other table. */
  lemma CreateAddsTable(cat: Catalog, accepts: (Catalog, string) -> bool, affinity: seq<string>, table: string,
                        fields: seq<Field>, auto: bool, nullable: seq<string>, pk: Option<string>, uniques: seq<string>)
    requires CreateOutcome(cat, accepts, affinity, table, fields, auto, nullable, pk, uniques).0 == Return(true)
    ensures ColumnsOf(fields, pk, affinity).Some?
    ensures var next := CreateOutcome(cat, accepts, affinity, table, fields, auto, nullable, pk, uniques).1;
      && table !in cat && next == cat[table := Table(DeclaredColumns(ColumnsOf(fields, pk, affinity).value, auto, pk), [])]
      && Fields(next, table, true) == TypeList(DeclaredColumns(ColumnsOf(fields, pk, affinity).value, auto, pk))
  {
    assert table !in cat;
    assert ColumnsOf(fields, pk, affinity).Some?;
    var cols := ColumnsOf(fields, pk, affinity).value;
    assert CreateStatement(table, cols, auto, nullable, pk, uniques).Return?;
    var text := CreateStatement(table, cols, auto, nullable, pk, uniques).value;
    var decl := DeclaredColumns(cols, auto, pk);
    assert CreateOutcome(cat, accepts, affinity, table, fields, auto, nullable, pk, uniques) ==
      (Return(true), Exec(cat, accepts, text, CreateTable(table, decl)).1);
    assert Apply(cat, CreateTable(table, decl)).Some?;
  }

  /** The columns left after the key is taken out are columns of the
      dictionary, and none of them is named like a truthy key. */
  lemma RemainingColumns(cols: seq<Column>, pk: Option<string>)
    ensures forall c :: c in Remaining(cols, pk) ==> c in cols && !(Truthy(pk) && c.name == pk.value)
  {
    var kept := Remaining(cols, pk);
    if Truthy(pk) && pk.value in ColumnNames(cols) {
      RemoveNameFacts(cols, pk.value);
    }
    forall c | c in kept ensures !(Truthy(pk) && c.name == pk.value) {
      var k :| 0 <= k < |kept| && kept[k] == c;
      assert ColumnNames(kept)[k] == c.name;
    }
  }

  /** A kept column has an upper-case type; when its last descriptor is a
      bare name, that type is TEXT. */
  lemma KeptTypes(fields: seq<Field>, pk: Option<string>, affinity: seq<string>)
    requires ColumnsOf(fields, pk, affinity).Some?
    ensures forall c :: c in Remaining(ColumnsOf(fields, pk, affinity).value, pk) ==>
      && Text.NoLowerCase(c.ctype)
      && LastWith(fields, c.name).Some?
      && (LastWith(fields, c.name).value.Bare? ==> c.ctype == "TEXT")
  {
    var cols := ColumnsOf(fields, pk, affinity).value;
    ColumnsOfShape(fields, pk, affinity);
    RemainingColumns(cols, pk);
    Lite.GeneralTypes();
    forall c | c in Remaining(cols, pk)
      ensures Text.NoLowerCase(c.ctype) && LastWith(fields, c.name).Some?
      ensures LastWith(fields, c.name).value.Bare? ==> c.ctype == "TEXT"
    {
      var k :| 0 <= k < |cols| && cols[k] == c;
    }
  }

  /** Stored types are upper case; the synthetic key, when present, comes
      first as `id INTEGER`, then the kept columns. */
  lemma DeclaredColumnsTypes(fields: seq<Field>, auto: bool, pk: Option<string>, affinity: seq<string>)
    requires ColumnsOf(fields, pk, affinity).Some?
    ensures var cols := ColumnsOf(fields, pk, affinity).value;
      var kept := Remaining(cols, pk);
      var decl := DeclaredColumns(cols, auto, pk);
      var off := if auto && !Truthy(pk) then 1 else 0;
      && (forall i :: 0 <= i < |decl| ==> Text.NoLowerCase(decl[i].ctype))
      && (off == 1 ==> decl[0] == Column("id", "INTEGER"))
      && |decl| == off + |kept| && decl[off..] == kept
  {
    var cols := ColumnsOf(fields, pk, affinity).value;
    KeptTypes(fields, pk, affinity);
    Lite.GeneralTypes();
    var kept := Remaining(cols, pk);
    var decl := DeclaredColumns(cols, auto, pk);
    var off := if auto && !Truthy(pk) then 1 else 0;
    assert decl[off..] == kept;
    forall i | 0 <= i < |decl| ensures Text.NoLowerCase(decl[i].ctype) {
      if i >= off {
        assert decl[i] == kept[i - off];
      }
    }
  }

  /** The imperative `create`: the guards, the descriptor loops, the
      statement, and one call of `execute`. */
  method Create(db: Lite.DB, table: string, fields: seq<Field>, auto: bool, nullable: seq<string>,
                pk: Option<string>, uniques: seq<string>) returns (r: Outcome<bool>)
    requires db.Valid()
    modifies db
    ensures db.Valid() && db.currentDb == old(db.currentDb)
    ensures (r, db.Current()) == CreateOutcome(old(db.Current()), db.accepts, AffinityNames(), table, fields, auto, nullable, pk, uniques)
    ensures db.files == old(db.files)[db.currentDb := db.Current()]
  {
    if table in db.TableNames() {
      return Return(false);
    }
    var declared := CheckDeclared(fields, uniques, nullable);
    if !declared {
      return Return(false);
    }
    var affinity := AffinityNames();
    var columns := BuildColumns(fields, pk, affinity);
    if columns.None? {
      return Return(false);
    }
    var statement := BuildStatement(table, columns.value, auto, nullable, pk, uniques);
    if statement.Raise? {
      return Raise(statement.error);
    }
    ghost var cat := db.Current();
    CreateExecutes(cat, db.accepts, affinity, table, fields, auto, nullable, pk, uniques);
    var ok := db.Execute(statement.value, CreateTable(table, DeclaredColumns(columns.value, auto, pk)));
    r := Return(ok);
  }

  // ---------------------------------------------------------------------
  // drop and rename

  function DropStatement(table: string): string {
    "DROP TABLE IF EXISTS " + table
  }

  /** `Tables.drop`: False for a missing table; otherwise what `execute`
      makes of the DROP statement. */
  function DropOutcome(cat: Catalog, accepts: (Catalog, string) -> bool, table: string): (r: (bool, Catalog))
    ensures r.0 <==> table in cat && accepts(cat, DropStatement(table))
    ensures r.1 == if r.0 then cat - {table} else cat
  {
    if table !in cat then (false, cat)
    else Exec(cat, accepts, DropStatement(table), DropTable(table))
  }

  method Drop(db: Lite.DB, table: string) returns (ok: bool)
    requires db.Valid()
    modifies db
    ensures db.Valid() && db.currentDb == old(db.currentDb)
    ensures (ok, db.Current()) == DropOutcome(old(db.Current()), db.accepts, table)
    ensures db.files == old(db.files)[db.currentDb := db.Current()]
  {
    if table !in db.TableNames() {
      return false;
    }
    ok := db.Execute(DropStatement(table), DropTable(table));
  }

  function RenameStatement(oldName: string, newName: string): string {
    "ALTER TABLE " + oldName + " RENAME TO " + newName + ";"
  }

  /** `Tables.rename`: False when `old` is missing or `new` is taken;
      otherwise the table moves to the new name, contents intact. */
  function RenameOutcome(cat: Catalog, accepts: (Catalog, string) -> bool, oldName: string, newName: string): (r: (bool, Catalog))
    ensures r.0 <==> oldName in cat && newName !in cat && accepts(cat, RenameStatement(oldName, newName))
    ensures r.0 ==> r.1 == (cat - {oldName})[newName := cat[oldName]]
    ensures !r.0 ==> r.1 == cat
  {
    if oldName !in cat || newName in cat then (false, cat)
    else Exec(cat, accepts, RenameStatement(oldName, newName), RenameTable(oldName, newName))
  }

  method Rename(db: Lite.DB, oldName: string, newName: string) returns (ok: bool)
    requires db.Valid()
    modifies db
    ensures db.Valid() && db.currentDb == old(db.currentDb)
    ensures (ok, db.Current()) == RenameOutcome(old(db.Current()), db.accepts, oldName, newName)
    ensures db.files == old(db.files)[db.currentDb := db.Current()]
  {
    var tables := db.TableNames();
    if oldName !in tables || newName in tables {
      return false;
    }
    ok := db.Execute(RenameStatement(oldName, newName), RenameTable(oldName, newName));
  }

  /** Renaming back undoes a rename. */
  lemma RenameRoundTrip(cat: Catalog, accepts: (Catalog, string) -> bool, a: string, b: string)
    requires RenameOutcome(cat, accepts, a, b).0
    requires accepts(RenameOutcome(cat, accepts, a, b).1, RenameStatement(b, a))
    ensures var mid := RenameOutcome(cat, accepts, a, b).1;
      RenameOutcome(mid, accepts, b, a) == (true, cat)
  {
    var mid := RenameOutcome(cat, accepts, a, b).1;
    assert ((mid - {b})[a := mid[b]]) == cat;
  }

  // ---------------------------------------------------------------------
  // What the code evidently means

  /** As written, a (name, type) pair can never be named in `uniques` or
      `null`: the raw descriptor list holds the pair, not the name. */
  lemma PairNeverDeclared(cat: Catalog, accepts: (Catalog, string) -> bool, affinity: seq<string>, table: string, n: string, t: string)
    ensures !Declared([Pair(n, t)], [n])
    ensures CreateOutcome(cat, accepts, affinity, table, [Pair(n, t)], true, [], None, [n]) == (Return(false), cat)
    ensures DeclaredIntended([Pair(n, t)], [n])
  {
    assert Bare(n) !in [Pair(n, t)];
    assert FieldNames([Pair(n, t)]) == [n];
  }

  /** The intended check: every name must be the name of some descriptor. */
  predicate DeclaredIntended(fields: seq<Field>, names: seq<string>) {
    forall u :: u in names ==> u in FieldNames(fields)
  }

  /** The intended check admits every name the written one admits, and any
      field's own name, whichever form its descriptor takes. */
  lemma DeclaredIntendedWeaker(fields: seq<Field>, names: seq<string>)
    ensures Declared(fields, names) ==> DeclaredIntended(fields, names)
    ensures DeclaredIntended(fields, FieldNames(fields))
  {
    if Declared(fields, names) {
      forall u | u in names ensures u in FieldNames(fields) {
        var k :| 0 <= k < |fields| && fields[k] == Bare(u);
      }
    }
  }

  /** The base name of a type with a length is the text before `(`. */
  lemma VarcharBase()
    ensures Text.Split("VARCHAR(255)", "(")[0] == "VARCHAR"
    ensures Text.OccursAt("VARCHAR(255)", "(", 7)
  {
    var v := "VARCHAR(255)";
    assert v[7..8] == "(";
    forall j | 0 <= j < 7 ensures !Text.OccursAt(v, "(", j) {
      assert v[j..j + 1] == [v[j]];
    }
    Text.IndexOfFirst(v, "(", 7);
    assert v[..7] == "VARCHAR";
  }

  /** A type with a parenthesis is no storage class. */
  lemma NotGeneral(t: string)
    requires exists j :: Text.OccursAt(t, "(", j)
    ensures t !in Lite.GENERAL
  {
    var j :| Text.OccursAt(t, "(", j);
    assert t[j] == '(';
  }

  /** As written, the affinity types that carry a length are refused while
      their bare base name passes. */
  lemma AffinityLengthRefused()
    ensures "VARCHAR(255)" in Lite.AFFINITY[1].1 && !TypeAccepted("VARCHAR(255)", AffinityNames())
    ensures TypeAccepted("VARCHAR", AffinityNames())
    ensures "" in Lite.AFFINITY[2].1 && TypeAccepted("", AffinityNames())
  {
    Lite.AffinityGroups();
    var k :| 0 <= k < |Lite.AFFINITY[2].1| && Lite.AFFINITY[2].1[k] == "";
    BaseNamesContain(Lite.AFFINITY, 2, k);
    assert Text.Split("", "(") == [""];
    VarcharBase();
    Lite.VarcharListed();
    AffinityNamesFree(Lite.AFFINITY);
    NotGeneral("VARCHAR(255)");
    BaseNamesContain(Lite.AFFINITY, 1, 1);
  }

  /** No pre-`(` part contains a parenthesis. */
  lemma {:induction false} AffinityNamesFree(groups: seq<(string, seq<string>)>)
    ensures forall x, j :: x in BaseNames(groups) ==> !Text.OccursAt(x, "(", j)
    decreases |groups|
  {
    if groups != [] {
      AffinityNamesFree(groups[1..]);
      var types := groups[0].1;
      forall k | 0 <= k < |types| ensures forall j :: !Text.OccursAt(Bases(types)[k], "(", j) {
        Text.SplitHeadFree(types[k], "(");
      }
    }
  }

  /** The intended test compares the base name of the declared type, so a
      type with any length is accepted when its base is an affinity type. */
  predicate TypeAcceptedIntended(t: string, affinity: seq<string>) {
    t in Lite.GENERAL || Text.Split(t, "(")[0] in affinity
  }

  /** Every type the affinity table lists is accepted, and so is every type
      the written test accepts. */
  lemma TypeAcceptedIntendedComplete(t: string)
    ensures forall g, k :: 0 <= g < |Lite.AFFINITY| && 0 <= k < |Lite.AFFINITY[g].1| ==>
      TypeAcceptedIntended(Lite.AFFINITY[g].1[k], AffinityNames())
    ensures TypeAccepted(t, AffinityNames()) ==> TypeAcceptedIntended(t, AffinityNames())
  {
    forall g, k | 0 <= g < |Lite.AFFINITY| && 0 <= k < |Lite.AFFINITY[g].1|
      ensures TypeAcceptedIntended(Lite.AFFINITY[g].1[k], AffinityNames())
    {
      BaseNamesContain(Lite.AFFINITY, g, k);
    }
    if t in AffinityNames() {
      AffinityNamesFree(Lite.AFFINITY);
      assert Text.Split(t, "(") == [t];
    }
  }

  lemma {:induction false} BaseNamesContain(groups: seq<(string, seq<string>)>, g: nat, k: nat)
    requires g < |groups| && k < |groups[g].1|
    ensures Text.Split(groups[g].1[k], "(")[0] in BaseNames(groups)
    decreases g
  {
    if g == 0 {
      assert Bases(groups[0].1)[k] == Text.Split(groups[g].1[k], "(")[0];
    } else {
      BaseNamesContain(groups[1..], g - 1, k);
    }
  }

  /** As written, a truthy `pk` is taken out of the columns and its line is
      never added back: the created table has no column of that name. With
      the empty name as `pk` and a field of that name, building raises. */
  lemma PrimaryKeyDropped(fields: seq<Field>, auto: bool, pk: Option<string>, affinity: seq<string>)
    requires ColumnsOf(fields, pk, affinity).Some? && Truthy(pk)
    ensures pk.value !in ColumnNames(DeclaredColumns(ColumnsOf(fields, pk, affinity).value, auto, pk))
    ensures CreateStatement("t", ColumnsOf([Bare("")], Some(""), affinity).value, true, [], Some(""), []) == Raise(NameError)
  {
    var cols := DeclaredColumns(ColumnsOf(fields, pk, affinity).value, auto, pk);
    assert cols == Remaining(ColumnsOf(fields, pk, affinity).value, pk);
    assert ColumnsOf([Bare("")], Some(""), affinity) == Some([Column("", "TEXT")]);
    assert ColumnNames([Column("", "TEXT")]) == [""];
  }

  /** The intended columns: a truthy `pk` keeps its place among the fields
      with its declared type, or comes first as INTEGER when no field names
      it; otherwise the synthetic `id` key as before. */
  function DeclaredColumnsIntended(cols: seq<Column>, auto: bool, pk: Option<string>): seq<Column> {
    if !Truthy(pk) then (if auto then [Column("id", Lite.GENERAL[1])] else []) + cols
    else if pk.value in ColumnNames(cols) then cols
    else [Column(pk.value, Lite.GENERAL[1])] + cols
  }

  /** With a truthy `pk`, the intended columns hold the key exactly once, with
      the declared type or INTEGER, and the other columns in their order: a
      key named by a field stays at that field's place, and a key no field
      names comes first. */
  lemma DeclaredColumnsIntendedKey(fields: seq<Field>, auto: bool, pk: Option<string>, affinity: seq<string>)
    requires ColumnsOf(fields, pk, affinity).Some? && Truthy(pk)
    ensures var cols := ColumnsOf(fields, pk, affinity).value;
      var decl := DeclaredColumnsIntended(cols, auto, pk);
      && DistinctNames(decl)
      && (exists i :: 0 <= i < |decl| && decl[i].name == pk.value)
      && (forall i :: 0 <= i < |decl| && decl[i].name == pk.value ==>
            decl[i].ctype == if pk.value in FieldNames(fields) then FieldType(LastWith(fields, pk.value).value, pk) else "INTEGER")
      && RemoveName(decl, pk.value) == Remaining(cols, pk)
      && (pk.value in ColumnNames(cols) ==> decl == cols)
      && (pk.value !in ColumnNames(cols) ==> decl[0] == Column(pk.value, "INTEGER"))
  {
    var cols := ColumnsOf(fields, pk, affinity).value;
    ColumnsOfShape(fields, pk, affinity);
    var n := pk.value;
    Lite.GeneralTypes();
    if n in ColumnNames(cols) {
      assert DeclaredColumnsIntended(cols, auto, pk) == cols;
      assert n in FieldNames(fields) by { assert n in Text.Dedup(FieldNames(fields)); }
      var k :| 0 <= k < |cols| && ColumnNames(cols)[k] == n;
      assert cols[k].name == n;
    } else {
      assert DeclaredColumnsIntended(cols, auto, pk) == [Column(n, "INTEGER")] + cols;
      assert n !in FieldNames(fields) by { assert n !in Text.Dedup(FieldNames(fields)); }
      KeyFirst(cols, n);
    }
  }

  /** A key put in front of columns that lack it is their one column of that
      name, and removing it gives the columns back. */
  lemma KeyFirst(cols: seq<Column>, n: string)
    requires DistinctNames(cols) && n !in ColumnNames(cols)
    ensures var decl := [Column(n, "INTEGER")] + cols;
      && DistinctNames(decl)
      && (forall i :: 0 < i < |decl| ==> decl[i].name != n)
      && RemoveName(decl, n) == RemoveName(cols, n) == cols
  {
    var decl := [Column(n, "INTEGER")] + cols;
    forall i | 0 < i < |decl| ensures decl[i].name != n {
      assert ColumnNames(cols)[i - 1] == decl[i].name;
    }
    forall i, j | 0 <= i < j < |decl| ensures decl[i].name != decl[j].name {
      if i > 0 { assert decl[i] == cols[i - 1] && decl[j] == cols[j - 1]; }
    }
    assert decl[1..] == cols;
    RemoveNameAbsent(cols, n);
  }
}
