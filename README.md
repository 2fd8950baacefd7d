# lite — a verified model of the statement-building core

`lite` is a thin Python layer over SQLite. A caller creates, alters and
queries tables through method calls, and the layer builds the SQL text for
them. This project models in Dafny the part of `lite` that validates the
caller's descriptors and builds and sequences statements:

- the handle `DB` (`lite/lite.py`): the type tables `GENERAL` and
  `AFFINITY`, the current database file, `execute`, `fetch`, `schema` and
  `new_db`;
- the table manager (`lite/_tables.py`): `create` (descriptor checks, type
  validation, the name-to-type dictionary, the `CREATE TABLE` text), `drop`
  and `rename`;
- the column manager (`lite/_columns.py`): `add`, `fields`, `remove` and
  `primary_key`;
- the record manager (`lite/_records.py`): `insert` (in-place padding and
  `?` placeholders) and `delete_record` (the WHERE clause).

The engine is abstract. A database file is a `Catalog`: a map from table
name to a table, which holds an ordered list of (name, type) columns and a
list of rows. Whether SQLite accepts a statement text against the database
as it stands is an oracle, `accepts`. Whether a DELETE condition selects a
row is a second oracle, `selects`. An accepted statement has the effect the
model reads from the text the wrapper builds (`Engine.Effect`). An effect
that cannot apply counts as a refusal: a CREATE of an existing name, an
INSERT with the wrong number of values, or a copy from an unknown column.

Each Python method that changes state is a Dafny `method` on `Lite.DB`,
whose fields are the current file and the files that exist. The loops the
source has stay loops:

- the `uniques`/`null` check;
- the descriptor loop and its affinity search;
- the column and UNIQUE loops that grow the statement;
- the padding loop;
- the SELECT and key-table builders.

Each method is proved against a function of the old state (`CreateOutcome`,
`RemoveOutcome`, `PrimaryKeyOutcome`, `InsertOutcome`, `DeleteOutcome`, …).
Lemmas about those functions then state what the source promises. Python
exceptions are values: `Outcome<T>` is either `Return(v)` or `Raise(e)`.

The main operations follow the code as written, defects included. Each
defect found is modelled twice: once as written, with a lemma that exhibits
it, and once as evidently intended, with the intended property proved (see
"## Findings").

Where the docstrings and the code disagree, the model follows the code:

- the primary key of `create` is never written into the statement;
- `delete_record` raises on a condition without the word `where`, and it
  lower-cases the whole condition;
- `remove` never re-inserts the rows, because it calls `self.records`,
  which the column manager does not have;
- `primary_key` rolls back only a failed copy, not a failed CREATE;
- `fetch` with a count of zero or less returns every row (the engine's
  `fetchmany` stops only on reaching the count).

## Model

| member | source | states |
|---|---|---|
| Lite.GeneralTypes | lite/lite.py:11 | `GENERAL` is exactly NULL, INTEGER, REAL, TEXT, BLOB; index 1 is INTEGER and index 3 is TEXT |
| Lite.AffinityGroups | lite/lite.py:12-29 | five affinity groups in the source's order; the empty type is in the NONE group |
| Lite.VarcharListed | lite/lite.py:12-29 | `VARCHAR(255)` is listed in the TEXT group |
| Lite.DB.constructor | lite/lite.py:33-38 | opening a handle makes that file current, and creates it empty when it does not exist |
| Lite.DB.Schema | lite/lite.py:49-52 | one key per table of the current file, each mapped to that table's `fields` list; the loop keeps this as its invariant |
| Lite.DB.NewDb | lite/lite.py:80-85 | False and nothing changes when the file exists; otherwise a new empty file becomes current and True |
| Lite.Fetch | lite/lite.py:127-155 | False (NotFound) for a missing table; AssertionError iff `get` is none of `*`, `1` or an integer; `*` gives all rows, `1` a one-element list of the first row or None, N > 0 gives the first min(N, rows) rows |
| Lite.ParseIntString | lite/lite.py:132-136 | `int()` reads back every integer's decimal text |
| Lite.FetchTextAsNumber | lite/lite.py:132-151 | a count given as text fetches what the same count given as a number fetches |
| Lite.FetchOneOnEmptyTable | lite/lite.py:141-148 | on an empty table `'1'` gives `[None]` while the number 1 gives `[]` |
| Lite.DB.Execute | lite/lite.py:215-223 | True and the statement's effect on the current file, or False and no change; every other file is untouched |
| Engine.ApplyPreservesWellFormed | lite/lite.py:215-223 | every effect the engine applies keeps each table non-empty, with distinct column names and one cell per column in each row |
| Engine.Fields | lite/_columns.py:118-129 | the `(None,)` marker iff the table is missing; otherwise the column names, or the (name, type) pairs with `types`, in catalog order |
| Tables.CheckDeclared | lite/_tables.py:143-153 | True iff every name in `uniques` and in `null` is an element of the raw descriptor list |
| Tables.Bases | lite/_tables.py:156 | each affinity name is a prefix of its listed type that holds no `(`: the whole type when it has no `(`, otherwise the part before its first `(` |
| Tables.SearchAffinity | lite/_tables.py:186-193 | the search loop sets `accepted` iff the upper-cased type is in the affinity list |
| Tables.FieldType | lite/_tables.py:165-167 | a recorded type never holds a lower-case letter |
| Tables.PutFacts | lite/_tables.py:166-208 | assigning a dictionary key adds a new name at the end or updates an existing one in place; other entries keep their place and type |
| Tables.ColumnsOfAccepted | lite/_tables.py:157-208 | the descriptor loop finishes iff every pair's upper-cased type is in `GENERAL` or in the affinity list |
| Tables.ColumnsOfShape | lite/_tables.py:157-208 | the dictionary holds each field name once, in first-occurrence order, each typed by its last descriptor: TEXT or INTEGER (`pk`) for a bare name, the upper-cased type for a pair |
| Tables.ColumnsOfNames | lite/_tables.py:157-208 | the dictionary's names are the field names without repeats, in first-occurrence order |
| Tables.ColumnsOfTypes | lite/_tables.py:165-208 | each column's type is the one its last descriptor gives, upper-cased |
| Tables.PutField | lite/_tables.py:158-208 | one loop step: refusal iff the pair's type is not accepted, otherwise the dictionary with that entry assigned |
| Tables.BuildColumns | lite/_tables.py:157-208 | the loop builds exactly the dictionary `ColumnsOf` describes, or refuses |
| Tables.Remaining | lite/_tables.py:217-220 | a truthy `pk` is taken out of the dictionary; otherwise the dictionary is unchanged |
| Tables.RemoveNameFacts | lite/_tables.py:220 | `del` removes exactly the entries with that name and keeps names distinct |
| Tables.CreateStatement | lite/_tables.py:211-244 | NameError iff an untruthy `pk` (the empty name) is a column, since line 231 reads an unassigned variable |
| Tables.CreateStatementText | lite/_tables.py:211-244 | the statement is `CREATE TABLE t (` + the lines joined by `,` + `\n);`, or `CREATE TABLE t \n);` with no lines |
| Tables.CreateLinesOrder | lite/_tables.py:214-244 | the `id` line first with `auto` and no truthy `pk`, then one `name TYPE NULL`/`NOT NULL` line per remaining column in order, then one UNIQUE line listing `uniques` in order |
| Tables.EntriesText | lite/_tables.py:227-236 | the column loop raises NameError iff it meets a column named like `pk`; otherwise it gives one line and comma per column |
| Tables.UniqueText | lite/_tables.py:239-242 | the UNIQUE loop gives `\n   UNIQUE(` then `name,` per unique name |
| Tables.BuildStatement | lite/_tables.py:211-244 | the imperative builder yields exactly `CreateStatement` |
| Tables.DeclaredColumnsTypes | lite/_tables.py:214-236 | the declared columns are `id INTEGER` (with `auto`, no `pk`) followed by the remaining columns, all types upper-case |
| Tables.KeptTypes | lite/_tables.py:165-208 | every kept column comes from a descriptor, and a bare name that is not the key is TEXT |
| Tables.CreateOutcome | lite/_tables.py:138-258 | False and no change for an existing table, an undeclared unique or null name, or an unaccepted type; a raise is only NameError for `pk == ""`; anything but True leaves the catalog unchanged |
| Tables.CreateAddsTable | lite/_tables.py:138-258 | a successful `create` adds one empty table with the declared columns, which `fields(types=True)` reports, and touches no other table |
| Tables.Create | lite/_tables.py:138-258 | the imperative `create` returns and leaves the file as `CreateOutcome` says |
| Tables.DropOutcome | lite/_tables.py:266-268 | True iff the table exists and the DROP is accepted; then exactly that table is gone |
| Tables.Drop | lite/_tables.py:266-268 | `drop` returns and leaves the file as `DropOutcome` says |
| Tables.RenameOutcome | lite/_tables.py:281-284 | True iff `old` exists, `new` does not and the ALTER is accepted; then the table moves to `new` with its contents |
| Tables.Rename | lite/_tables.py:281-284 | `rename` returns and leaves the file as `RenameOutcome` says |
| Tables.RenameRoundTrip | lite/_tables.py:281-284 | renaming back restores the catalog |
| Columns.AddStatementFlags | lite/_columns.py:52-54 | the ALTER text determines the `unique` and `null` flags |
| Columns.AddOutcome | lite/_columns.py:48-55 | True iff the table exists, lacks the column and the ALTER is accepted; then the column is appended with its type, every row gains a NULL cell, and no other table changes |
| Columns.AddThenFields | lite/_columns.py:48-55 | after `add`, `fields` lists the new column last, and a second `add` of it returns False |
| Columns.Add | lite/_columns.py:48-55 | `add` returns and leaves the file as `AddOutcome` says |
| Columns.RemoveFirstAt | lite/_columns.py:72 | `list.remove` deletes exactly the first occurrence |
| Columns.RemoveFirstDistinct | lite/_columns.py:72 | on distinct names the rest is distinct, lacks the column and holds every other name |
| Columns.SelectStatementText | lite/_columns.py:78-82 | the SELECT lists the remaining fields in order, separated by `, ` |
| Columns.SelectText | lite/_columns.py:78-82 | the loop builds exactly that SELECT |
| Columns.RemoveOutcome | lite/_columns.py:65-92 | False and no change for a missing table or column; the sole column drops the table and returns True; only TypeError or AttributeError can be raised |
| Columns.RebuildTable | lite/_columns.py:86-89 | the drop and the re-create leave the catalog as `Rebuild` says |
| Columns.Remove | lite/_columns.py:65-92 | `remove` returns and leaves the file as `RemoveOutcome` says |
| Columns.InsertAllRows | lite/_columns.py:90-91 | with an engine that accepts every statement, inserting full-width records in turn appends exactly their cells, in order |
| Columns.RecreateBare | lite/_columns.py:89 | re-creating from bare distinct names makes an empty table with exactly those columns |
| Columns.KeyRestFacts | lite/_columns.py:172-177 | the dictionary for the keyed table holds every other column, and the key then the others are distinct |
| Columns.CopyNamesResolve | lite/_columns.py:172-225 | the copy selects one resolvable name per column of the keyed table |
| Columns.KeyCreateStatementText | lite/_columns.py:206-215 | with other columns, the key line is followed by `name type NOT NULL` lines joined by commas |
| Columns.KeyCreateText | lite/_columns.py:206-215 | the loop builds exactly that statement |
| Columns.CopyList | lite/_columns.py:219-220 | IndexError iff no other column is left |
| Columns.KeyBuild | lite/_columns.py:182-216 | a raise is only the IndexError of an empty column list |
| Columns.KeyCopy | lite/_columns.py:219-233 | raises iff no other column is left, and then changes nothing |
| Columns.PrimaryKeyOutcome | lite/_columns.py:166-233 | False and no change for a missing table; a raise is only IndexError when the key is the only column |
| Columns.BuildKeyed | lite/_columns.py:182-216 | the PRAGMAs and the CREATE leave the file as `KeyBuild` says |
| Columns.CopyKeyed | lite/_columns.py:219-233 | the copy, the rollback and the final drop leave the file as `KeyCopy` says |
| Columns.PrimaryKey | lite/_columns.py:166-233 | `primary_key` returns and leaves the file as `PrimaryKeyOutcome` says |
| Columns.CopiedKeyed | lite/_columns.py:219-225 | a successful copy fills the keyed table with the selected cells of the original rows and touches no other table |
| Columns.PrimaryKeyRekeys | lite/_columns.py:166-233 | on True the table has the key column first, then every other original column; its rows are the original rows projected on the key source and the others; no other table changes |
| Columns.CopyRefusedRestores | lite/_columns.py:226-229 | a refused copy drops the new table, renames the original back, and leaves the catalog as it was, with False |
| Records.Padded | lite/_records.py:39-40 | the padded record keeps its prefix, appends only `empty`, and is exactly `n` long when it was shorter |
| Records.Pad | lite/_records.py:39-40 | the in-place loop leaves the caller's list equal to `Padded` |
| Records.PlaceholdersShape | lite/_records.py:41 | `n` question marks separated by commas, with no trailing comma |
| Records.InsertOutcome | lite/_records.py:35-50 | False and no change for a missing table; the record is padded to the column count; True iff it fits and is accepted, and then one row holding it is appended |
| Records.Insert | lite/_records.py:35-50 | `insert` returns, pads the caller's list and leaves the file as `InsertOutcome` says |
| Records.WhereClause | lite/_records.py:85-88 | an absent or empty condition gives the empty clause; IndexError iff a non-empty condition lacks `where` in any case |
| Records.WhereClauseText | lite/_records.py:86 | the clause is `WHERE ` followed by lower-case text that holds no further `where` |
| Records.SecondPiece | lite/_records.py:86 | the piece after the first `where` exists, is lower-case and contains no `where` |
| Records.DeleteOutcome | lite/_records.py:83-89 | False and no change for a missing table; IndexError as `WhereClause` says; on True exactly the selected rows are removed |
| Records.DeleteAll | lite/_records.py:85-89 | with no condition the statement is `DELETE FROM t ` and success empties the table |
| Records.DeleteRecord | lite/_records.py:83-89 | `delete_record` returns and leaves the file as `DeleteOutcome` says |
| Text.UpperNoLowerCase | lite/_tables.py:185 | `upper()` leaves no lower-case letter |
| Text.LowerNoUpperCase | lite/_records.py:86 | `lower()` leaves no upper-case letter |
| Text.IndexOf | lite/_records.py:86 | the first occurrence of the pattern, or None iff it occurs nowhere |
| Text.JoinSplit | lite/_records.py:86 | joining the pieces of `split` with the separator gives back the text |
| Text.SplitSecond | lite/_records.py:86 | there is a second piece iff the separator occurs; it runs up to the next occurrence |
| Text.StripUnchanged | lite/_records.py:86 | `strip()` leaves text without outer whitespace unchanged |
| Text.DedupDistinct | lite/_tables.py:157 | a list of distinct names is its own de-duplication |
| Tables.PairNeverDeclared | lite/_tables.py:148 | as written, a (name, type) pair never declares its name for `uniques` or `null`, so `create` returns False |
| Tables.DeclaredIntendedWeaker | lite/_tables.py:148 | the intended check admits all that the written one admits and every field's own name |
| Tables.AffinityLengthRefused | lite/_tables.py:156-193 | `VARCHAR(255)` is listed but refused, while `VARCHAR` is accepted; the empty type, listed in the NONE group, is accepted |
| Tables.TypeAcceptedIntendedComplete | lite/_tables.py:156-193 | the intended test accepts every listed type and all that the written test accepts |
| Tables.PrimaryKeyDropped | lite/_tables.py:217-231 | as written, a truthy `pk` never appears among the declared columns, and `pk == ""` with an empty-named field raises NameError |
| Tables.DeclaredColumnsIntendedKey | lite/_tables.py:217-231 | the intended columns hold the key once, typed as declared or INTEGER, with the other columns in order; a key named by a field keeps that field's place, and a key no field names comes first |
| Columns.RemoveLosesRows | lite/_columns.py:89-92 | as written, removing a column from a table with rows raises AttributeError and leaves the table missing or empty |
| Columns.RemoveIntendedSteps | lite/_columns.py:65-92 | the intended `remove` is drop, re-create from bare names without `auto`, then one insert per selected row |
| Columns.RemoveIntendedKeepsRows | lite/_columns.py:65-92 | with an engine that accepts every statement, the intended `remove` keeps the other columns in order and every row's other cells |
| Columns.StageRefusedKeepsRename | lite/_columns.py:198-216 | as written, a refused PRAGMA or CREATE returns False with the table still renamed to `old_t` |
| Columns.PrimaryKeyIntendedRestores | lite/_columns.py:180-229 | the intended `primary_key` leaves the catalog as it was whenever it returns False |
| Columns.PrimaryKeyIntendedReachesCopy | lite/_columns.py:180-225 | with every statement accepted, the intended sequence reaches the copy into the keyed table |
| Columns.PrimaryKeyIntendedRekeys | lite/_columns.py:166-233 | with an engine that accepts every statement, the intended `primary_key` succeeds, keys the table, keeps every row's cells, drops `old_t` and touches no other table |
| Columns.KeyOnlyDanglingComma | lite/_columns.py:206-215 | as written, with no other column the CREATE keeps a comma before `);` |
| Columns.KeyOnlyCreateRefused | lite/_columns.py:206-216 | as written, when the engine refuses the key-only CREATE (it ends in a comma), `primary_key` of a table's only column returns False with the table left as `old_t` |
| Columns.KeyOnlyColumnRaises | lite/_columns.py:219-220 | as written, and only for an engine that accepts even the malformed key-only CREATE, the copy list raises IndexError, leaving the original as `old_t` beside the new empty table |
| Columns.KeyCreateIntended | lite/_columns.py:206-215 | the intended CREATE is the written one whenever other columns exist |
| Columns.CopyListOneColumn | lite/_columns.py:220 | as written, one other column gives `a, ` and a SELECT with a comma before FROM |
| Columns.CopyStatementAgrees | lite/_columns.py:219-225 | the intended copy agrees with the written one for two or more columns, and lists exactly the names otherwise |
| Records.WhereKeywordRequired | lite/_records.py:86 | as written, a condition without the letter `w` raises IndexError |
| Records.IntendedWhereClause | lite/_records.py:76-78 | the intended clause is empty or starts with `WHERE ` |
| Records.IntendedKeywordOptional | lite/_records.py:76-78 | with the intended clause, `c` and `WHERE c` give the same clause, and the case of `c` is kept |

## Left out

- Real SQLite. Connections, cursors, `commit` and the exceptions the
  engine raises are left out. In their place are the catalog, the
  `accepts` oracle and the `selects` oracle. `IntegrityError` is not told
  apart from a caught `OperationalError`.
- The engine's catalog table `sqlite_master`, which also lists indexes.
  `TABLES` is modelled as the catalog's keys. `query` is modelled only for
  the projections the core issues (`Engine.Query`).
- Column constraints. NULL, NOT NULL, UNIQUE and PRIMARY KEY are not
  recorded on columns. They act only through the `accepts` oracle.
- The effect of `PRAGMA foreign_keys=off` on the engine. Both PRAGMAs in
  `primary_key` are modelled as statements without effect.
- `drop_db` and `clear` work only on the file system. `new_db` keeps its
  existence guard, over the map of existing files.
- Debug printing, the interactive `input()` prompt and `breakpoint()` in
  `create`.
- `isinstance` checks on descriptors. A descriptor is either `Bare(name)`
  or `Pair(name, type)`.
- `Columns.unique`. It cannot run: it lacks `self` and names undefined
  variables.
- Unicode text handling. `upper()`, `lower()`, `strip()` and `int()` are
  modelled on ASCII only. Unicode case mapping, Unicode digits and
  underscores in `int()` are left out.
- Lite.Fetch, Lite.FetchMany: the C-int range of `fetchmany` and Python's
  digit limit on `int()` are not modelled. A count outside -2^31..2^31-1
  makes `fetchmany` raise OverflowError, which `fetch` does not catch, and
  a text count longer than the digit limit (4300 digits by default) makes
  `int()` raise ValueError, so the assertion fails. The model returns rows
  for both.
- Columns.CopiedKeyed: the copied rows keep the row identifiers of the
  original rows. The engine's renumbering is not modelled.
- Columns.RemoveIntendedSteps: the re-created table types every column
  TEXT, as a `create` from bare names does. The original types are not
  carried over.
- Columns.KeyRestFacts, Columns.CopyNamesResolve, Columns.KeyedCopyApplies,
  Columns.CopyRefusedRestores, Columns.KeyOnlyCreateRefused,
  Columns.KeyOnlyColumnRaises and Columns.PrimaryKeyIntendedRekeys assume
  `column` is not the literal `ROWID`. For that name the key would shadow
  the row identifier.
- Columns.RemoveIntendedKeepsRows, Columns.PrimaryKeyIntendedRekeys and
  Columns.InsertAllRows assume an engine that accepts every statement.
  Such an engine also accepts what SQLite refuses for the constraints
  these statements declare. The re-created and keyed tables declare every
  column NOT NULL, yet rows can hold NULL cells (from `add` or from padding
  with `None`). The key column can also hold repeated values. For such
  rows SQLite refuses the re-insert or the copy, so these lemmas do not
  promise success there.
- Letter case of names. SQLite compares table and column names without
  regard to case; the catalog's keys and the distinct-name checks compare
  them exactly. A clash such as a table `T` beside `t`, or columns `a` and
  `A`, is left to the `accepts` oracle.
- The shadowing of `column` in `primary_key`. The loop that builds the
  CREATE reuses the name `column` for each other column. The source never
  reads the key's name after that loop, so the model keeps one name for
  the key and has no shadowing.

## Findings

| source | as written | input that shows it | evidently intended | confidence | as-written member | corrected member |
|---|---|---|---|---|---|---|
| lite/_tables.py:148 | `f not in fields` compares a name with the raw descriptors, so a (name, type) pair never declares its name | `create("t", [("a", "TEXT")], uniques=["a"])` returns False | a name is declared when some descriptor has that name | not executed | Tables.PairNeverDeclared | Tables.DeclaredIntendedWeaker |
| lite/_tables.py:156 | the affinity list holds each type cut at `(`, and the whole upper-cased type is compared with it | `("a", "VARCHAR(255)")` is refused although listed; `("a", "VARCHAR")` is accepted | compare the type's own part before `(` with the list | not executed | Tables.AffinityLengthRefused | Tables.TypeAcceptedIntendedComplete |
| lite/_tables.py:217-231 | `pk_code` is built but never added; the key was already deleted from the dictionary | `create("t", ["a", "b"], pk="a")` declares only `b` | the key's line at its place among the fields, as the comment at :230 says, or first as INTEGER when no field names it | not executed | Tables.PrimaryKeyDropped | Tables.DeclaredColumnsIntendedKey |
| lite/_columns.py:89-92 | `self.records` does not exist on the column manager, so the rows are never put back | `remove` of one of two columns on a table with a row raises AttributeError after the drop | re-insert every selected row into the re-created table | not executed | Columns.RemoveLosesRows | Columns.RemoveIntendedKeepsRows |
| lite/_columns.py:198-216 | a refused PRAGMA or CREATE returns False without renaming `old_t` back | the engine refuses the CREATE: the table is left as `old_t` | undo the rename before returning False | not executed | Columns.StageRefusedKeepsRename | Columns.PrimaryKeyIntendedRestores |
| lite/_columns.py:206-216 | with no other column the cut at line 214 removes a space, not the comma, so the CREATE ends `PRIMARY KEY,` then `);`; the engine refuses it and `primary_key` returns False with the table stranded as `old_t` | `primary_key` of a table's only column | a key-only table, copied from the key source alone | not executed | Columns.KeyOnlyCreateRefused | Columns.PrimaryKeyIntendedRekeys |
| lite/_columns.py:220 | one other column yields `a, ` and so a comma before FROM | `primary_key` on a table of two columns, keying one of them | the names joined by `, ` | not executed | Columns.CopyListOneColumn | Columns.CopyStatementAgrees |
| lite/_records.py:86 | `split('where')[1]` requires the word, and the whole condition is lower-cased | `delete_record("t", "age > 65")` raises IndexError | the keyword is optional and the condition keeps its case | not executed | Records.WhereKeywordRequired | Records.IntendedKeywordOptional |
