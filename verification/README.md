# primitive_db: schema and record engine

A Dafny model of the core of `primitive_db`, a small command-line
database. The model covers:

- The **catalog**: table name mapped to an ordered list of typed columns,
  with `ID:int` always first. `create_table` and `drop_table` either change
  the catalog or leave it exactly as it was.
- The **record store**: each table's records are an ordered sequence of
  maps from column name to value. `insert` coerces raw texts against the
  schema and assigns `max(ID) + 1`. `select`, `update` and `delete` share
  one equality filter.
- The **command text** the interpreter hands to the store: the `where` and
  `set` clauses (`col=value`, unquoted, then read as a boolean, a
  non-negative integer or a string) and the parenthesised values list of
  `insert into <t> values (...)`.

Modules:

| file | module | contents |
|---|---|---|
| `wrappers.dfy` | `Wrappers` | `Option` and `Result` |
| `text.dfy` | `Text` | the Python string operations the source relies on: `strip`/`lstrip`/`rstrip` with a character set, ASCII `lower`, `split(c, 1)`, `split(c)`, `split("values", 1)[1]`, `isdigit`, `int()` |
| `values.dfy` | `Values` | column types, cell values, the coercion `insert` applies, Python's `==` between cells |
| `catalog.dfy` | `Catalog` | `create_table`, `drop_table`, lookup |
| `records.dfy` | `Records` | the filter, `select`, `update`, `delete`, `insert` |
| `clauses.dfy` | `Clauses` | `parse_where`, `parse_set`, the values-list split |
| `scenario.dfy` | `Scenario` | the users/Bob/Ann walk-through as concrete lemmas |

Python behaviour that is written out explicitly:

- **Cross-type equality.** `True == 1` and `False == 0` hold, and a string
  never equals a number (`Values.PyEq`). A where-clause value `1` therefore
  matches a stored `True`.
- **Catalog order.** The catalog is a sequence in registration order, as a
  Python dict iterates.
- **Stored IDs.** A stored record whose `ID` is missing or a string makes
  `max(...) + 1` raise. That is the error `StoredIdError`. A boolean ID
  counts as 0 or 1.
- **A user column called `ID`.** Such a column overwrites the record's
  `ID` during coercion. On an empty table its value stays, and on a
  non-empty table `max + 1` replaces it. The ID lemmas therefore assume no
  such column.
- **`where` as the last token.** A keyword with nothing after it indexes
  past the token list. That is the error `MissingOperand`.
- **A table name containing `values`.** The values list starts after the
  first `values` in the raw line, even inside the table name
  (`Clauses.ValuesInsideName`).
- **IDs after a delete.** A new ID exceeds only the IDs still stored, so
  deleting the record with the largest ID lets the next insert hand that ID
  out again (`Scenario.IdReusedAfterDelete`).
- **The records an insert appends to.** `insert` loads the table's records
  itself (core.py:96); here they are a parameter.

## Model

| member | source | states |
|---|---|---|
| Values.ParseType | src/primitive_db/core.py:5 | a type name is accepted exactly when it is `int`, `str` or `bool`, and the accepted type prints back as that name |
| Values.Coerce | src/primitive_db/core.py:81-92 | coercion fails only for an integer column whose text `int()` rejects; a string column keeps the text verbatim; a boolean column is true exactly when the lowered text is `true` or `1`; a result always has the column's type |
| Values.CoerceRender | src/primitive_db/core.py:85-89 | coercing the printed form of a value back into its column gives the same value |
| Values.PyEqFacts | src/primitive_db/core.py:106 | the filter's `==` is reflexive, symmetric and transitive, and it differs from plain equality only between an int and a bool |
| Catalog.IndexOfTable | src/primitive_db/core.py:13 | finds the first table with the name, and finds nothing exactly when the name is not registered |
| Catalog.Lookup | src/primitive_db/core.py:70-74 | the columns are found exactly when the name is registered, and they belong to a registered table of that name |
| Catalog.LookupFinds | src/primitive_db/core.py:74 | with unique names, looking up a table's name gives that table's columns |
| Catalog.ParseColumn | src/primitive_db/core.py:20-26 | a token without `:` is a malformed spec, and any other rejection is an unknown type |
| Catalog.ParseColumnSplits | src/primitive_db/core.py:23-27 | an accepted token is exactly `name:type` split at its first colon |
| Catalog.ParseColumnUnknownType | src/primitive_db/core.py:23-26 | a rejected token with a colon has, after its first colon, a text that is none of the three type names, and that text is the reported error |
| Catalog.ParseFormatColumn | src/primitive_db/core.py:23-27 | printing a column `name:type` and parsing it back gives the column again |
| Catalog.ParseColumns | src/primitive_db/core.py:18-27 | the list is accepted exactly when every token is, and it is then one column per token, in token order |
| Catalog.ParseColumnsFirstError | src/primitive_db/core.py:19-26 | a rejected list reports the error of its first bad token, and every token before it is good |
| Catalog.ParseColumnsEach | src/primitive_db/core.py:18-27 | parsing each token on its own determines the parse of the whole list |
| Catalog.CreateTable | src/primitive_db/core.py:11-34 | a taken name is a duplicate; creation succeeds exactly when the name is new and every token parses; a rejection returns the catalog unchanged; success appends one table, keeps the others, and puts `ID:int` first |
| Catalog.CreateTableAppends | src/primitive_db/core.py:29-32 | the new table is exactly `ID:int` followed by the parsed columns, appended after the existing tables |
| Catalog.CreateTableColumns | src/primitive_db/core.py:18-32 | the schema has one column per token after `ID`, and each column is the `name:type` of its token |
| Catalog.CreateTableWellFormed | src/primitive_db/core.py:13-15 | creating a table keeps table names unique |
| Catalog.RemoveAt | src/primitive_db/core.py:41 | removing one entry keeps all the others in their order |
| Catalog.RemoveAtWellFormed | src/primitive_db/core.py:41 | removing a table keeps names unique and removes its name |
| Catalog.DropTable | src/primitive_db/core.py:36-43 | dropping is rejected exactly when the name is absent, and the catalog is then unchanged; otherwise exactly that table is removed, and the name is gone |
| Catalog.DropKeepsOthers | src/primitive_db/core.py:36-43 | after a drop the name is unknown, and every other name looks up as before |
| Catalog.LookupAfterRemove | src/primitive_db/core.py:41 | removing one table does not change the lookup of any other name |
| Catalog.CreateThenDrop | src/primitive_db/core.py:11-43 | creating a fresh table and then dropping it restores the original catalog |
| Records.Keep | src/primitive_db/core.py:106 | the filter never returns more records than it is given |
| Records.KeepMembers | src/primitive_db/core.py:106 | a record is kept exactly when it is in the collection and its match is the wanted one |
| Records.KeepIsSubsequence | src/primitive_db/core.py:106 | the kept records appear in their original order |
| Records.KeepConcat | src/primitive_db/core.py:106 | filtering a concatenation is the concatenation of the filtered parts |
| Records.KeepSingle | src/primitive_db/core.py:106 | on one record, the filter keeps it exactly when its match is the wanted one |
| Records.KeepPartition | src/primitive_db/core.py:134-136 | matching and non-matching records split the collection: the counts add up, and so do the multisets |
| Records.KeepEmptyClause | src/primitive_db/core.py:105-108 | the empty clause matches every record |
| Records.KeepNoneMatch | src/primitive_db/core.py:135 | when nothing matches, the non-matching records are the whole collection |
| Records.Select | src/primitive_db/core.py:103-108 | a missing or empty clause yields every record; a present clause yields exactly the filter's matching records, in order, with their repeats, so that they and the non-matching records make up the whole collection as a multiset |
| Records.Update | src/primitive_db/core.py:121-128 | the length stays the same; non-matching records are unchanged; a matching record gets every set pair and keeps its other columns; the count is the number of matches |
| Records.UpdateNothing | src/primitive_db/core.py:123-128 | an update that matches nothing changes nothing and counts zero |
| Records.Delete | src/primitive_db/core.py:132-136 | the remaining records are exactly the non-matching ones, in order; the count is the number removed, which equals the number of matches |
| Records.DeleteNothing | src/primitive_db/core.py:134-136 | a delete that matches nothing keeps everything and counts zero |
| Records.Build | src/primitive_db/core.py:80-93 | building a record fails exactly when some value does not coerce; the first such value is the one reported; the keys of a success are `ID` plus the column names |
| Records.BuildValues | src/primitive_db/core.py:81-93 | each column holds the coerced value last written under its name, and earlier keys not named by a column are kept |
| Records.MaxId | src/primitive_db/core.py:98 | the maximum exists exactly when every stored ID is a number; it bounds every stored ID and is one of them |
| Records.Insert | src/primitive_db/core.py:68-99 | an unknown table and a wrong value count are reported; success appends exactly the new record; on a non-empty table the new ID exceeds every stored ID and is one more than one of them |
| Records.InsertFails | src/primitive_db/core.py:70-98 | an insert fails exactly when the table is unknown, the count is wrong, an integer value does not parse, or a stored ID is missing or not a number |
| Records.InsertRecord | src/primitive_db/core.py:80-97 | the new record holds `ID` and every user column with its coerced value; on an empty table its ID is 1 unless a user column is named `ID` |
| Records.NewIdFresh | src/primitive_db/core.py:96-98 | when every stored ID is an integer, the appended record's integer ID is held by no stored record, even if stored IDs repeat |
| Records.AppendDistinct | src/primitive_db/core.py:99 | appending a record with a new integer ID keeps IDs distinct |
| Records.InsertKeepsIdsDistinct | src/primitive_db/core.py:95-99 | inserting keeps the table's IDs present, integer and pairwise distinct |
| Clauses.Classify | src/primitive_db/engine.py:36-41 | a value is a boolean exactly when its lowered text is `true` or `false`; it is an integer exactly when it is all digits, with the digits' value; anything else stays the same string |
| Clauses.DigitsAreNotWords | src/primitive_db/engine.py:36-41 | no run of digits reads as a boolean word, so the order of the checks does not matter for digits |
| Clauses.ClassifyNumbers | src/primitive_db/engine.py:40-41 | decimal text reads as its number, while a leading `-` or `+`, or an empty text, stays a string |
| Clauses.ClassifyWords | src/primitive_db/engine.py:36-39 | any text reads as `True` exactly when it lowers to `true`, and as `False` exactly when it lowers to `false`, whatever its letter case |
| Clauses.ClassifyWordExamples | src/primitive_db/engine.py:36-39 | `TRUE` reads as `True` and `False` as `False` |
| Clauses.ParseClauseToken | src/primitive_db/engine.py:33-42 | a clause exists exactly when the token has `=`; its column is the text before the first `=`, and its value is the reading of the unquoted rest |
| Clauses.ClauseOf | src/primitive_db/engine.py:33-35 | the column is everything before the first `=`, and the raw value is everything after it |
| Clauses.ClauseRoundTrip | src/primitive_db/engine.py:33-42 | writing `col=<literal>` and parsing it gives back the column and the value |
| Clauses.LiteralRoundTrip | src/primitive_db/engine.py:35-41 | unquoting and reading a literal gives back its value |
| Clauses.IndexOf | src/primitive_db/engine.py:31 | finds the first occurrence of the keyword, and finds nothing exactly when the keyword is absent |
| Clauses.ParseKeywordClause | src/primitive_db/engine.py:28-43 | an absent keyword gives no clause; it fails exactly when the keyword is the last token; a clause has one entry |
| Clauses.KeywordClauseCases | src/primitive_db/engine.py:32-43 | the token after the first keyword decides: without `=` there is no clause, and with `=` the clause maps the text before the first `=` to the reading of the rest |
| Clauses.KeywordClause | src/primitive_db/engine.py:30-43 | the clause depends only on the token after the first occurrence of the keyword |
| Clauses.WhereAndSetAgree | src/primitive_db/engine.py:28-61 | `parse_where` and `parse_set` read the same token into the same clause |
| Clauses.SplitValues | src/primitive_db/engine.py:99-100 | the split fails exactly when the line has no `values`; otherwise there is one item per comma after it, plus one |
| Clauses.ListItems | src/primitive_db/engine.py:99-100 | there is one item per comma in the text after `values`, plus one |
| Clauses.CleanItemSlice | src/primitive_db/engine.py:100 | cleaning an item only cuts characters off its two ends: the result is a contiguous part of the item, and everything cut off is whitespace, a quote or a parenthesis |
| Clauses.CleanAllPlain | src/primitive_db/engine.py:100 | a list of plain items comes out of the per-item cleaning unchanged |
| Clauses.CountOfTrimmed | src/primitive_db/engine.py:99 | trimming whitespace and parentheses removes no comma |
| Clauses.SplitValuesRoundTrip | src/primitive_db/engine.py:99-100 | a list written `values (v1,v2,...)` reads back as exactly those items |
| Clauses.ListItemsRoundTrip | src/primitive_db/engine.py:99-100 | the text ` (v1,v2,...)` splits into exactly the plain items |
| Clauses.PlainItemClean | src/primitive_db/engine.py:100 | a plain item comes out of cleaning unchanged |
| Clauses.CleanQuotedItem | src/primitive_db/engine.py:100 | an item with a blank before it, in either kind of quote, comes out as its bare text |
| Clauses.ValuesInsideName | src/primitive_db/engine.py:99 | the list is read after the first `values` in the line, even when that occurrence is inside the table name |
| Text.TrimLeft | src/primitive_db/engine.py:99 | `lstrip` removes a leading run made only of the given characters, and what remains does not start with one |
| Text.TrimRight | src/primitive_db/engine.py:99 | `rstrip` removes a trailing run made only of the given characters, and what remains does not end with one |
| Text.Strip | src/primitive_db/engine.py:35 | `strip` returns a middle slice whose cut-off ends hold only the given characters |
| Text.StripUnique | src/primitive_db/engine.py:35 | any slice meeting the strip conditions is the one `strip` returns |
| Text.StripWrapped | src/primitive_db/engine.py:35 | one character wrapped around a text that does not start or end with it is stripped off |
| Text.SplitFirst | src/primitive_db/engine.py:34 | `split(c, 1)` fails exactly when `c` is absent; otherwise the head has no `c`, and head, `c` and tail rebuild the text |
| Text.SplitFirstUnique | src/primitive_db/core.py:23 | a head without `c` is what `split(c, 1)` gives back |
| Text.SplitAll | src/primitive_db/engine.py:100 | `split(c)` gives one more piece than there are `c`s; no piece holds `c`; joining the pieces rebuilds the text |
| Text.SplitAllJoin | src/primitive_db/engine.py:100 | splitting a join of pieces without `c` gives the pieces back |
| Text.Find | src/primitive_db/engine.py:99 | the first occurrence of the pattern, and none before it |
| Text.After | src/primitive_db/engine.py:99 | `split(pat, 1)[1]` fails exactly when the pattern does not occur; otherwise it is the text after an occurrence of the pattern |
| Text.ParseInt | src/primitive_db/core.py:89 | `int()` accepts exactly digits with an optional sign |
| Text.ParseIntRoundTrip | src/primitive_db/core.py:89 | `int(str(n)) == n` |
| Text.NatToStringRoundTrip | src/primitive_db/engine.py:40-41 | the decimal text of a number is all digits and reads back as the number |
| Scenario.CreateUsers | src/primitive_db/core.py:11-34 | `create_table users name:str active:bool` on an empty catalog registers `ID:int, name:str, active:bool` |
| Scenario.FirstInsert | src/primitive_db/core.py:68-99 | inserting `Bob, true` into the empty table stores Bob with ID 1 and `active` true |
| Scenario.SecondInsert | src/primitive_db/core.py:68-99 | inserting `Ann, 0` next stores Ann with ID 2 and `active` false, after Bob |
| Scenario.SelectActive | src/primitive_db/core.py:103-108 | selecting `active=true` from Bob and Ann gives exactly Bob |
| Scenario.DeleteAnn | src/primitive_db/core.py:132-136 | deleting `ID=2` from Bob and Ann leaves Bob and counts one |
| Scenario.IdReusedAfterDelete | src/primitive_db/core.py:96-99 | after the record with ID 2 is deleted, the next insert hands out ID 2 again |
| Scenario.WhereActive | src/primitive_db/engine.py:28-43 | `select from users where active=true` gives the clause `{active: True}` |

## Left out

- Persistence (`utils.py` loading and saving the catalog and table files) is
  not part of this model. The catalog and each table's records are
  parameters and results, and the `save_table_data` calls at the end of
  `insert`, `update` and `delete` are left out.
- The command loop `run` is left out: `shlex` tokenising, dispatching on the
  command word, `input`, and the `try`/`except` around each command.
  `print_help` and `list_tables` are left out too, as they only print.
  `info` is left out as well: besides printing the schema, it loads the
  table's record file (core.py:61), which is persistence.
- Records.Select: models the filtering of core.py:105-108 only, not the
  table rendering at core.py:114-119. That rendering takes its header from
  the first row's keys, and then raises `KeyError` when a later row lacks
  one of them. Rows with different key sets do arise: `update` adds
  set-clause columns to the matching rows only, and records left behind
  by `drop_table` can meet a re-created table with other columns. In
  that case `Select` returns the rows, while the source raises and prints
  no table. Records are `map`s, so the key order of a Python dict is not
  modelled either: `ID` first, then the columns, then keys added by
  `update`. That order is the order of the header.
- All printed messages are left out. Each rejection is a `Status` or error
  value instead.
- The call signatures in `run` do not match `core.py`:
  - `insert` receives an extra argument;
  - `select`, `update` and `delete` are expected to return values they do not return;
  - `info` receives an extra argument.
  
  Each core function is modelled as `core.py` defines it.
- `update` and `delete` called with no where-clause (`None`, as
  `parse_where` returns when there is no `where`) are left out.
  `Records.Update` and `Records.Delete` take a clause. In the source,
  `delete` then raises `AttributeError`. `update` raises only when there
  is at least one record: on an empty collection its loop never reads the
  where-clause, and it returns normally with count 0.
- `update` called with no set-clause (`None`, as `parse_set` returns when
  there is no `set` or its token has no `=`) is left out too.
  `Records.Update` takes a clause. In the source this raises
  `AttributeError`: at core.py:126 when a record matches, and otherwise
  at core.py:129.
- Text.ParseInt: models `int()` as an optional sign followed by ASCII
  digits. Surrounding whitespace, underscores and non-ASCII digits, which
  Python also accepts, are not modelled. Nor is the limit Python 3.11 and
  later place on decimal conversion: `int()` raises `ValueError` for a
  text of more than 4300 digits, which affects core.py:89 and engine.py:41.
  The model accepts such texts.
- Text.Lower and Clauses.Classify: `lower()` and `isdigit()` are ASCII
  only. Python's Unicode case mapping and Unicode digits are not modelled.
- Text.Strip: the whitespace set of `strip()` is the ASCII one. Unicode
  spaces are not modelled.
- Records.InsertRecord: the ID-is-1 property on an empty table carries the
  hypothesis that no user column is called `ID`. Such a column overwrites
  the ID.
- Records.InsertKeepsIdsDistinct: carries the same hypothesis, and also
  requires the stored IDs to be distinct and integer to begin with.
  Persisted data is not checked for this.
- Records.Update: writes set-clause values without checking them against
  the column types, as the source does.
- `drop_table` leaves the table's record file behind. File handling is not
  part of this model.
