# primitive_db core, modelled in Dafny

A model of the pure, sequential layer of `primitive_db`, a small table store
that keeps its schema in a JSON metadata document and each table's rows in a
JSON data file. Four parts are modelled:

- **Clause parser** (`parser.py`): `parse_value` coerces a token to a bool, an
  int or a string. `split_by_commas` cuts an assignment list at the commas that
  are not inside quotes. `parse_where`, `parse_set` and `parse_where_simple`
  check the token shape and build a field→value map.
- **Schema operations** (`core.py`): `create_table` and `drop_table` as
  transitions of the metadata document.
- **Schema operations with data files** (`utils.py`): the same two operations,
  plus `load_table_data`, `save_table_data`, `load_metadata` and
  `save_metadata`. They run over an abstract file store, a map from path to
  content. A boolean per I/O call says whether that call succeeds.
- **Result cache** (`cache.py`): the dictionary that `create_cacher` closes
  over, with `cache_result`, `clear` and `stats` as pure state transitions.

Files and modules:

| file | module | models |
|---|---|---|
| `wrappers.dfy` | `Wrappers` | `Option`, for the source's `None` returns |
| `text.dfy` | `Text` | Python `str.strip`, `str.lower`, `str.isdigit`, `int()` and `str(int)` |
| `values.dfy` | `Values` | the typed values (`bool`, `int`, `str`) and records |
| `comma_split.dfy` | `CommaSplit` | `split_by_commas` and its quote automaton |
| `parser.dfy` | `Parser` | `parse_value`, `parse_where`, `parse_set`, `parse_where_simple` |
| `catalog.dfy` | `Catalog` | the metadata document and the column rules that both `create_table`s share |
| `core.dfy` | `Core` | `core.py` |
| `utils.dfy` | `Utils` | `utils.py` |
| `cacher.dfy` | `Cacher` | `cache.py` |

Modelling choices:

- `shlex.split` is a parameter of type `string -> Option<seq<string>>`. None
  stands for the `ValueError` it raises on an unbalanced quote. `ShlexLite`
  splits at blanks (space, tab, CR, LF). It matches `shlex.split` only on
  `Plain` text (no `"`, `'` or `\`), and the lemmas that use it require
  `Plain`.
- Every exception the parser functions catch becomes None. This covers the
  `IndexError` that `parse_value` raises on a token that is empty after
  trimming, which is why `ParseValue` returns an `Option`.
- `strip()` uses Python's full `isspace()` set. `lower()` lowers ASCII letters
  only. That is exact for the `true`/`false` test, because no non-ASCII
  character lowers to one of those letters.
- The metadata document is `Metadata(tables: Option<map<...>>)`. None means
  the `"tables"` key is absent. Python mutates the document in place and
  returns it. The model returns the new document instead, and on failure the
  caller keeps the old one, as the source's callers do.
- The code rejects neither duplicate column names nor a user column named
  `ID` (core.py:8-16, utils.py:32-40), so `ID` can appear twice in a table's
  columns, and the model allows this too.
- Most errors the modelled functions check for or catch are printed and then
  reported as a None, False or `[]` return value, and the model returns the
  same None, False or `[]`. There are three exceptions:
  - `drop_table` in `utils.py` reports a failed file deletion only by
    printing, and still returns the updated document, so `Utils.DropTable`
    with a failed deletion returns `Some`.
  - `load_metadata` returns an empty document (`{}`, modelled as
    `Metadata(None)`) on every error path, and says nothing when the file is
    missing.
  - `save_metadata` reports a failed write only by printing. It returns None
    either way, so `SaveMetadata` returns the store and no status.

  The exceptions the code does not catch are listed under "Left out".

## Model

| member | source | states |
|---|---|---|
| Text.Strip | src/primitive_db/parser.py:93 | `strip()` returns a middle slice of the input with only whitespace cut before and after it, leaves no whitespace at either end, and gives the empty string exactly for all-whitespace input |
| Text.StripIdempotent | src/primitive_db/parser.py:93 | stripping twice is stripping once |
| Text.FormatNat | src/primitive_db/parser.py:100-101 | `str(n)` is all decimal digits, reads back as `n` under `int()`, and has no leading zero (`0` prints as the single digit) |
| Text.Lower | src/primitive_db/parser.py:96 | `lower()` keeps the length and lowers each character on its own |
| Text.IsDecimal | src/primitive_db/parser.py:100 | `isdigit()`: non-empty and every character a digit |
| Text.DecimalValue | src/primitive_db/parser.py:101 | `int()` on a digit string: the positional value, most significant digit first |
| Text.DecimalValueLeadingZero | src/primitive_db/parser.py:100-101 | `int()` ignores leading zeros, so `007` parses as 7 |
| Text.FormatDecimal | src/primitive_db/parser.py:100-101 | round trip: a digit string without a leading zero is what `str(int(s))` prints back |
| CommaSplit.Step | src/primitive_db/parser.py:123-131 | only a quote character changes the state; outside quotes it opens a run marked by itself; inside a run only the opening character closes it, and the other quote is plain text |
| CommaSplit.ScanFrom | src/primitive_db/parser.py:122-135 | the state after a whole string: a run is only ever marked by a quote character, and text without quotes leaves the state as it was |
| CommaSplit.ScanAppend | src/primitive_db/parser.py:122-135 | scanning `a + b` is scanning `b` from where `a` left the automaton |
| CommaSplit.Pieces | src/primitive_db/parser.py:117-140 | the raw parts the loop accumulates rejoin with commas to the input, hold no separating comma, and each comma between them is met outside quotes |
| CommaSplit.RawPieces | src/primitive_db/parser.py:117-140 | the raw parts of the whole input form a comma split of it |
| CommaSplit.CommaSplitUnique | src/primitive_db/parser.py:122-135 | an input has only one comma split, so the quote automaton fixes the parts |
| CommaSplit.SplitByCommas | src/primitive_db/parser.py:107-140 | every part is whitespace-trimmed; empty input gives no parts |
| CommaSplit.SplitByCommasCharacterized | src/primitive_db/parser.py:130-140 | the parts are the stripped pieces of any comma split, with the last piece kept only when at least one character follows the last separating comma |
| CommaSplit.SplitByCommasNonEmpty | src/primitive_db/parser.py:137-140 | a non-empty input gives at least one part |
| CommaSplit.StaysInside | src/primitive_db/parser.py:123-129 | inside a run opened by one quote character, every other character, including the other quote, leaves the run open |
| CommaSplit.QuotedRunNoSplit | src/primitive_db/parser.py:122-131 | no comma inside a quoted run is a separator |
| CommaSplit.UnsplitIsOnePart | src/primitive_db/parser.py:137-140 | input without a separating comma comes back as its stripped self |
| CommaSplit.QuotedRunIsOnePart | src/primitive_db/parser.py:122-135 | a quoted run comes back whole, quote characters kept, whatever commas or other quotes it holds |
| Parser.ParseValue | src/primitive_db/parser.py:82-104 | after trimming, case-insensitive true/false gives a bool that is true exactly for `true`; otherwise an integer literal (digits, or `-` and digits) gives its int; otherwise the trimmed text; None exactly when the input is all whitespace |
| Parser.ParseValueTrims | src/primitive_db/parser.py:93 | surrounding whitespace never changes the parsed value |
| Parser.IsIntLiteral | src/primitive_db/parser.py:100 | the integer test: all digits, or `-` followed by all digits |
| Parser.IntLiteralValue | src/primitive_db/parser.py:101 | `int()` on such a literal: non-negative for all digits, non-positive after a `-` |
| Parser.IntLiteralRender | src/primitive_db/parser.py:100-101 | round trip: a literal without a leading zero or `-0` is what `str()` prints for the int it denotes |
| Parser.FormatIntIsLiteral | src/primitive_db/parser.py:100-101 | `str(i)` is an integer literal denoting `i` |
| Parser.ParseRenderInt | src/primitive_db/parser.py:100-101 | parsing `str(i)` gives the int `i` back |
| Parser.ParseRenderBool | src/primitive_db/parser.py:96-97 | parsing `str(b)` (`True`/`False`) gives the bool `b` back |
| Parser.ParseRender | src/primitive_db/parser.py:96-104 | round trip: every bool, every int, and trimmed non-literal text is returned by parsing what `str()` prints |
| Parser.ParseClause | src/primitive_db/parser.py:64-71 | a part parses exactly when it tokenizes to `field = value` with a value that is not blank; the clause holds the first token and the parsed third |
| Parser.ParseWhere | src/primitive_db/parser.py:4-40 | None for empty text, a tokenizer failure, a token count other than 3, an operator other than `=`, or a blank value; otherwise a map whose only key is the field, holding the parsed value |
| Parser.AllOrNothing | src/primitive_db/parser.py:62-71 | a result exists exactly when every element succeeds, and it lists each element's result in order |
| Parser.ParseClauses | src/primitive_db/parser.py:62-71 | all parts' clauses in order, or None exactly when some part fails |
| Parser.FieldsSnoc | src/primitive_db/parser.py:73 | the fields of a clause list are those of all but the last clause plus the last clause's field |
| Parser.Assign | src/primitive_db/parser.py:57-73 | the keys are exactly the clauses' fields, and each field holds the value of the last clause that names it |
| Parser.AssignNonEmpty | src/primitive_db/parser.py:57-73 | assigning at least one clause gives a non-empty map |
| Parser.ParseSet | src/primitive_db/parser.py:43-79 | None for empty text; otherwise a map exactly when every comma-separated part is `field = value`; its keys are the parts' fields and it is never empty |
| Parser.ParseSetLastWins | src/primitive_db/parser.py:62-75 | on success a field holds the value of the last part that names it |
| Parser.IndexOf | src/primitive_db/parser.py:163 | the position found holds `=` and no earlier position does |
| Parser.ParseWhereSimple | src/primitive_db/parser.py:144-173 | None when there is no `=` or the text after the first `=` is blank; otherwise one key, the trimmed text before the first `=`, holding the value parsed from the rest |
| Parser.SimpleCutsAtFirstEquals | src/primitive_db/parser.py:159-169 | only the first `=` separates, so the value text may itself contain `=` |
| Parser.WordOf | src/primitive_db/parser.py:19 | a word without blanks, quotes or backslashes, followed by a blank or the end, is read as one token |
| Parser.WordsCons | src/primitive_db/parser.py:19 | such a word is the first token and tokenizing continues after it |
| Parser.WordsOfAssignment | src/primitive_db/parser.py:19-26 | `field = value` with sides free of whitespace, quotes and backslashes tokenizes to the three tokens field, `=`, value |
| Parser.ShlexWhereAssignment | src/primitive_db/parser.py:19-36 | `parse_where` on such text gives the one-entry map field→parsed value |
| Parser.StripTrailingBlank | src/primitive_db/parser.py:164 | a trailing blank is trimmed off a field |
| Parser.ParseValueLeadingBlank | src/primitive_db/parser.py:165-167 | a leading blank does not change the parsed value |
| Parser.SimpleWhereAssignment | src/primitive_db/parser.py:158-169 | `parse_where_simple` on `field = value` without inner whitespace gives the same one-entry map |
| Parser.WhereParsersAgree | src/primitive_db/parser.py:144-169 | the two WHERE parsers agree on `field = value` when neither side holds whitespace, quotes or backslashes and the field holds no `=` |
| Parser.SingleSetIsWhere | src/primitive_db/parser.py:43-79 | a SET list with a single part parses exactly like a WHERE clause of the same text |
| Catalog.Register | src/primitive_db/core.py:19-26 | the new entry is stored under the name, a missing `"tables"` key is created, and no other table changes |
| Catalog.Unregister | src/primitive_db/core.py:39-44 | exactly that table is removed, no other changes, and the `"tables"` key goes exactly when it was the last table |
| Catalog.UnregisterRegister | src/primitive_db/core.py:19-44 | removing a just-registered table restores a document that did not hold an empty `"tables"` map |
| Catalog.RegisterUnregister | src/primitive_db/core.py:19-44 | registering a removed table's entry again restores the document |
| Core.CreateTable | src/primitive_db/core.py:1-31 | None when the name exists or a type is outside {int, str, bool}; otherwise the table holds `("ID","int")` then the given columns, with empty data, and no other table changes |
| Core.DropTable | src/primitive_db/core.py:33-47 | None exactly for an unknown name; otherwise only that table is removed, and the `"tables"` key too when no table remains |
| Core.CreatePreservesWellFormed | src/primitive_db/core.py:8-26 | creation keeps every entry starting with the ID column and using allowed types, and leaves no empty `"tables"` map |
| Core.DropPreservesWellFormed | src/primitive_db/core.py:39-44 | dropping keeps the document well formed |
| Core.CreateThenDrop | src/primitive_db/core.py:19-44 | dropping a table just created gives back the original document, if it held no empty `"tables"` map |
| Core.DropThenCreate | src/primitive_db/core.py:1-47 | re-creating a dropped table that held no rows, with its own columns, gives back the original document |
| Utils.DataFile | src/primitive_db/utils.py:43-44 | the data file is `data/` + name + `.json` |
| Utils.DataFileInjective | src/primitive_db/utils.py:43-44 | two tables never share a data file |
| Utils.CreateTable | src/primitive_db/utils.py:25-71 | a duplicate name or a bad type gives None with no file touched; a failed data-file write gives None with nothing registered; on success the file holds an empty list and the entry holds `("ID","int")` then the columns and the data file path, with no other table changed |
| Utils.DropTable | src/primitive_db/utils.py:73-96 | None for an unknown name; otherwise the table is removed even when deleting its file fails, and the `"tables"` key goes when it was the last table |
| Utils.LoadTableData | src/primitive_db/utils.py:98-116 | the records in the table's file; the empty list for an unknown table, a missing file, a failed read or content that does not decode |
| Utils.SaveTableData | src/primitive_db/utils.py:118-131 | False with no write for an unknown table or a failed write; otherwise True, and the file holds exactly the list |
| Utils.SaveThenLoad | src/primitive_db/utils.py:103-128 | round trip: after a successful save, loading the table returns the saved list |
| Utils.CreateThenLoad | src/primitive_db/utils.py:49-55 | a newly created table loads as the empty list |
| Utils.SaveKeepsOtherTables | src/primitive_db/utils.py:123-127 | in a consistent store (which every operation keeps), saving one table never changes what another table loads |
| Utils.CreatePreservesConsistent | src/primitive_db/utils.py:50-65 | after a creation every table still names its own data file, and that file exists |
| Utils.DropPreservesConsistent | src/primitive_db/utils.py:79-93 | after a drop, whether or not the file was deleted, every table still names its own existing data file |
| Utils.SavePreservesConsistent | src/primitive_db/utils.py:123-131 | a save keeps metadata and files consistent |
| Utils.CreateThenDrop | src/primitive_db/utils.py:25-96 | dropping a table just created restores the metadata whether or not its data file can be deleted, and restores the file store when the data file did not exist before and its deletion succeeds |
| Utils.DropThenLoadAndSave | src/primitive_db/utils.py:98-121 | a dropped table loads as the empty list and cannot be saved |
| Utils.LoadMetadata | src/primitive_db/utils.py:5-16 | the stored document, or an empty one for a missing file, undecodable content or a failed read |
| Utils.SaveMetadata | src/primitive_db/utils.py:18-23 | a successful write replaces that file's content with the document; other files are untouched; a failed one changes nothing |
| Utils.SaveThenLoadMetadata | src/primitive_db/utils.py:5-23 | round trip: loading a just-saved metadata document returns it |
| Cacher.Empty | src/primitive_db/cache.py:1-2 | a new cacher stores nothing |
| Cacher.CacheResult | src/primitive_db/cache.py:4-12 | a hit returns the stored value, changes nothing and does not call `value_func`; a miss calls it, stores the result under the key as exactly one new entry and returns it |
| Cacher.Clear | src/primitive_db/cache.py:14-17 | after `clear` the stats report size 0 and no keys |
| Cacher.GetStats | src/primitive_db/cache.py:19-24 | `size` is the number of stored keys and equals the length of `keys`, which lists exactly the stored keys, in insertion order |
| Cacher.StatsInInsertionOrder | src/primitive_db/cache.py:10-23 | a miss appends its key at the end of the listed keys, and a hit leaves the listing unchanged |
| Cacher.DistinctLength | src/primitive_db/cache.py:21-23 | a list without repeats that has exactly the dictionary's keys is as long as the dictionary |
| Cacher.FirstWriteWins | src/primitive_db/cache.py:4-12 | once a key is stored, a later call with any `value_func` returns the first value and changes nothing |
| Cacher.MissKeepsOthers | src/primitive_db/cache.py:10-11 | a miss leaves every other stored entry as it was |
| Cacher.ClearForcesRecompute | src/primitive_db/cache.py:14-16 | after `clear` any key misses, so its value is computed again |

## Left out

- `engine.py`: the interactive loop, command dispatch and printing are I/O glue.
- `decorators.py`: `confirm_action` reads stdin, `log_time` reads a clock, and `handle_db_errors` only turns exceptions into None. None of them carries data semantics.
- `__init__.py` re-exports `insert`, `select`, `update`, `delete`, `validate_value` and `convert_value` from `core.py`. No code for them exists, so they are not part of this model. Row insertion, filtering, updating, deleting and value validation are absent from the model for the same reason: the code has no such functions.
- `shlex.split`: its quoting and escaping rules are not modelled. The tokenizer is a parameter, and the blank-splitting `ShlexLite` stands in for it only on text without quotes or backslashes.
- JSON encoding and decoding: file contents are records or an undecodable marker. A data file whose JSON is valid but is not a list of records is not distinguished.
- Table entries without `"data_file"`: `drop_table`, `load_table_data` and `save_table_data` in `utils.py` read `metadata["tables"][name]["data_file"]` outside any `try` (utils.py:80, 103, 123). An entry without that key, such as the `{"columns", "data"}` entry that `core.create_table` writes (core.py:23-26), raises `KeyError` out of all three. The model assumes every entry carries `columns` and `data_file` (the `FileEntry` type), so it does not model that crash.
- Metadata documents of another shape: `load_metadata` returns any valid JSON (utils.py:8). A list or a `"tables"` value that is not an object of entries makes later lookups raise out of the operations. `MetaContent` holds only well-shaped documents, so that crash is not modelled either.
- Other top-level keys of the metadata document: the operations never read or write them, so `Metadata` holds only the `"tables"` entry.
- Table order: Python dictionaries keep insertion order, which affects only printing. Tables are a `map`.
- Failed writes: a write that truncates a file and then fails would leave partial content. The model treats every failed write as leaving the store unchanged. The code writes files in place, with no temporary file and no rename.
- `os.makedirs("data")` in `create_table` runs outside the `try`, so its failure would raise out of the function. The model assumes it succeeds.
- Paths are compared as strings. File-system aliasing (`x` and `./x` naming one file) is not modelled.
- The Unicode breadth of `str.isdigit` and `str.lower`: only ASCII digits and letters are modelled.
- Printed diagnostics: every `print` is left out.
- `value_func` raising an exception: the model's `value_func` always returns a value.
- Cacher.CacheResult: requires the cache's own invariant (each stored key listed once in insertion order). `Empty`, `CacheResult` and `Clear` all establish it, so every reachable cache satisfies it.
- Cacher.GetStats: requires the same invariant, for the same reason.
- Cacher.StatsInInsertionOrder: requires the same invariant, for the same reason.
- Cacher.FirstWriteWins: requires the same invariant, for the same reason.
- Cacher.MissKeepsOthers: requires the same invariant, for the same reason.
- Cacher.ClearForcesRecompute: requires the same invariant, for the same reason.
