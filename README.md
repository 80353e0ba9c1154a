# json2csv in Dafny

A model of the core of json2csv, a converter from newline-delimited JSON
records to one CSV table. The program makes two passes over its input:

- **SCAN** flattens every record into column names (`get_names`) and merges
  them into one ordered, duplicate-free column list (`merge_vecs`).
- After SCAN the header is written from that list (`write_header`).
- **EMIT** walks every record again. Each leaf is stored in the slot of its
  column in a buffer of one cell per column (`construct_row`,
  `construct_obj`, `construct_arr`). The buffer is then escaped, quoted and
  comma-joined.

The input format (plain, gzip or zstd) is chosen from the first four bytes
of the file.

Modules:

- `Json` (json.dfy): the parsed value, with object entries in order. It also
  has the json crate's integer indexing `IndexAt`, which gives `null` on
  anything but an array.
- `Schema` (schema.dfy): discovery mode.
  - `Names` specifies `get_names` and `GetNames` implements it with the
    source's loops and recursion.
  - `Merge` specifies `merge_vecs` and `MergeVecs` implements it.
  - `CorrectedNames` is the intended single-dot naming.
- `Rows` (rows.dfy): construction mode.
  - One walk of a record is a sequence of writes. A write is a column name to
    look up and a `Cell` saying what text to store there.
  - `Apply` performs the writes on the buffer. It finds each name's first
    position and stops at the first missing name.
  - `ConstructArr` and `ConstructObj` fill an `array<string>` in place with
    the source's loops. `ConstructRow` uses them and is proved equal to
    `RowLine`. The body of each entry loop is its own method
    (`StoreField`, `StoreEntry`).
- `Csv` (csv.dfy): quoting and comma-joining. The push-then-pop loops are
  proved equal to a plain separator join.
- `Pipeline` (pipeline.dfy): SCAN as a fold (`ScanColumns`), EMIT, and the
  whole conversion of a corpus of parsed records (`Convert`), and what a run
  prints before it stops when a row fails (`Run`).
- `Codec` (codec.dfy): the magic-number rule.
- `Basics` (basics.dfy): `Option`, `Result`, `NoDup`, first-position search
  and decimal printing of indices.

`escape` (escape_string crate) and `JsonValue::to_string` are external. They
are parameters `escape: string -> string` and `dump: Value -> string` with no
properties assumed.

The model keeps the source's quirks:

- **Double dot.** Below the top level, `get_names` recurses with prefix
  `pfx + "." + key + "."` although `pfx` already ends in a dot. So
  `{"a":{"b":{"c":..}}}` gives the column `a..b.c`. `construct_obj` looks up
  `a.b.c`. So such a record stops with "Column not found" unless another
  record supplies a column `a.b.c`. Then its leaf lands in that column and its
  own `a..b.c` cell stays empty (`Pipeline.RowSucceedsIff` gives the exact
  condition, `Pipeline.DoubleDotMisplaced` an instance). See Findings.
- **Nested scalars.** `construct_obj` stores `escape(obj[i].to_string())`,
  where `obj` is the enclosing object and `i` the column position. The json
  crate indexes an object by integer as `null`. So every nested scalar cell
  holds the escaped text of `null`, whatever the scalar's value
  (`Rows.NestedScalarCellIsNull`, `Rows.NestedScalarValueIgnored`).
- **Double escaping.** Array cells and nested cells are escaped when stored
  and again when the row is joined. Top-level scalar cells are escaped once.
- **Unescaped header.** Header names are quoted but not escaped.
- **Two kinds of failure.** A missing array or nested column ends with
  "Column not found: name" (`Failure.ColumnNotFound`). A missing top-level
  scalar column makes `unwrap` panic (`Failure.UnwrapOnNone`). Both are
  modelled as error results, not as termination.

Two further points about the code:

- `construct_obj` stores `obj[i]`, the enclosing object indexed by the
  column position, and never the value it is visiting.
- The program has no unescape function, so no round-trip law about
  `escape` is stated.

## Model

| member | source | states |
|---|---|---|
| Schema.GetNames | src/main.rs:9-36 | the names pushed by the loops and the recursion are exactly `Names(pfx, obj)`: per entry, in entry order, a scalar gives `pfx+key`, an array gives one name per element, and a nested object gives its own names under the child prefix; a non-object gives none |
| Schema.NamesConcat | src/main.rs:12-33 | entry order: the names of an object are the names of its first entries followed by those of the remaining entries |
| Schema.ScalarNames | src/main.rs:32 | a scalar at `key` under `pfx` contributes exactly the one name `pfx+key` |
| Schema.ArrayEntryNames | src/main.rs:13-17 | an array of length N contributes exactly N names; name i is `pfx+key+"_"+i`, in increasing i, whatever the elements are |
| Schema.NestedNames | src/main.rs:20-29 | a nested object contributes its own names under prefix `key.` at the top level and `pfx.key.` below it |
| Schema.DoubleDotAtDepthTwo | src/main.rs:21-25 | for `{a:{b:{...}}}` the innermost names carry the prefix `a..b.`, with two dots in a row |
| Schema.ShallowNamesAgree | src/main.rs:21-25 | for a record with no object inside a nested object, `get_names` equals the intended single-dot naming |
| Schema.MergeVecs | src/main.rs:38-48 | the push loop computes `Merge(vec1, vec2)`: each name of `vec2` that is not yet present is appended, in order |
| Schema.MergeExtends | src/main.rs:38-48 | `vec1` is an unchanged prefix of the result; the result has at most `|vec1|+|vec2|` names; every added name comes from `vec2` and is not in `vec1` |
| Schema.MergeMembers | src/main.rs:41-44 | a name is in the result if and only if it is in `vec1` or in `vec2` |
| Schema.MergeNoDup | src/main.rs:41-44 | if `vec1` has no duplicates, neither has the result |
| Schema.MergeAbsorbs | src/main.rs:41-44 | merging names that are all present already returns `vec1` unchanged |
| Schema.MergeIdempotent | src/main.rs:41-44 | `merge_vecs(v, v) == v` (no duplicate-freedom needed), and merging the same `vec2` a second time changes nothing |
| Schema.MergeFirstSeenOrder | src/main.rs:41-44 | names appended to `vec1` appear in the order of their first occurrence in `vec2` |
| Schema.MergeAppend | src/main.rs:38-48 | merging two batches of names one after the other equals merging their concatenation |
| Csv.WriteHeader | src/main.rs:68-75 | the header is the column names, each wrapped in double quotes and not escaped, joined by single commas; it is empty exactly when there are no columns |
| Csv.PopTerminatedIsJoin | src/main.rs:70-73 | pushing `field,` per field and popping once gives the comma-joined fields, also for no fields, where `pop` on the empty string does nothing |
| Csv.JoinEndsWithLast | src/main.rs:73 | a non-empty line ends with its last field, so there is no trailing comma |
| Basics.Position | src/main.rs:80 | `iter().position`: None if and only if the name is absent; otherwise the index of its first occurrence |
| Basics.NatToStringInjective | src/main.rs:79 | different element indices print differently, so the names `key_0`, `key_1`, ... of one array are pairwise distinct |
| Rows.Apply | src/main.rs:116-131 | performing a walk's writes keeps the buffer at one cell per column |
| Rows.ApplyAppend | src/main.rs:118-131 | walking two parts of a record in turn is performing the first part's writes and then, unless they failed, the second part's |
| Rows.ApplyStopsAtFailure | src/main.rs:82-85 | once a write fails, the walk's result is that failure: nothing after it is looked up |
| Rows.ApplyFailsIff | src/main.rs:80-85 | a walk succeeds if and only if every name it looks up is a column; otherwise it fails with the failure of the first missing name (ColumnNotFound for arrays and nested leaves, the unwrap panic for top-level scalars) |
| Rows.ApplyUntouched | src/main.rs:103-110 | only matched slots change: a column that no write names keeps its previous text |
| Rows.ApplyLastWriteWins | src/main.rs:87 | the slot found for a name holds the text of the last write to that name |
| Rows.ConstructArr | src/main.rs:77-89 | on success the buffer becomes what the writes `key_x := escape(element x)` give, in element order; otherwise it stops with ColumnNotFound for the first missing `key_x` |
| Rows.ConstructObj | src/main.rs:91-112 | walks the entries in order: arrays and objects go on under `key.k`, and a scalar stores `escape(obj[i])` at column `key.k`; the buffer ends as `Apply` of those writes, or the first missing name is reported |
| Rows.StoreField | src/main.rs:92-111 | one entry of `construct_obj`: its effect on the buffer is `Apply` of that entry's writes, and a missing scalar column is reported as ColumnNotFound(`key.k`) |
| Rows.JoinRow | src/main.rs:133-138 | the closing loop yields every cell escaped and quoted, comma-joined, with no trailing comma |
| Rows.FillRow | src/main.rs:118-131 | the entry loop of `construct_row` leaves the buffer as `Apply` of the record's writes in entry order, or reports the first failure |
| Rows.StoreEntry | src/main.rs:118-130 | one entry of `construct_row`: arrays and objects are handed on under the bare key, and a scalar stores its unescaped text at column `key`, an absent column failing as UnwrapOnNone |
| Rows.ConstructRow | src/main.rs:114-139 | the line or failure is exactly `RowLine`: the record's writes on an all-empty buffer, then escaped, quoted and joined |
| Rows.RowShape | src/main.rs:114-139 | a built row has exactly one cell per column; a column not named by any leaf of the record holds the empty default; the line is those cells escaped, quoted and comma-joined |
| Rows.NestedScalarCellIsNull | src/main.rs:110 | every nested-scalar cell is `escape(to_string(null))`, whatever the slot, because integer indexing of an object gives null |
| Rows.NestedScalarValueIgnored | src/main.rs:110 | records `{a:{b:v1}}` and `{a:{b:v2}}` give the same line for any scalars v1 and v2 |
| Rows.ArrayCellEscapedTwice | src/main.rs:87 | in the row of the record `{key: [...]}`, the joined field of column `key_x` is `escape(escape(to_string(element x)))`, escaped when stored and again when joined (in a larger record a later write to the same column wins, `Rows.ApplyLastWriteWins`) |
| Rows.TopScalarEscapedOnce | src/main.rs:129-130 | in the row of the record `{key: v}` whose column `key` exists, the field is `escape(to_string(v))`: stored unescaped and escaped once when joined (in a larger record a later write to the same column wins) |
| Pipeline.ScanNoDup | src/main.rs:152-171 | the scanned column list has no duplicates |
| Pipeline.ScanMembers | src/main.rs:152-171 | a name is a scanned column if and only if some record has it among its names |
| Pipeline.ScanExtends | src/main.rs:170 | scanning more records only appends columns; earlier columns keep their positions |
| Pipeline.ScanIsMergeOfAllNames | src/main.rs:152-171 | SCAN's column list is one merge, into no columns, of every record's names in the order they are met |
| Pipeline.ScanFirstSeenOrder | src/main.rs:152-171 | of two scanned columns, the earlier one first occurs earlier among the names met in the corpus |
| Pipeline.RowLookupsAreCorrectedNames | src/main.rs:91-131 | the names construction looks up for a record are, in order, its names under single-dot naming |
| Pipeline.RowSucceedsIff | src/main.rs:114-131 | a row can be built if and only if every single-dot name of the record is a column |
| Pipeline.ScanThenEmitShallow | src/main.rs:168-178 | for a scanned record with no object inside a nested object, building its row against the scanned columns never fails |
| Pipeline.DoubleDotRowFails | src/main.rs:24 | `{"a":{"b":{"c":null}}}` scans to the single column `a..b.c`, and building its row fails with ColumnNotFound("a.b.c") |
| Pipeline.DoubleDotMisplaced | src/main.rs:24 | when an earlier record `{"a.b": {"c": null}}` supplies the column `a.b.c`, the record `{"a": {"b": {"c": null}}}` builds, with its leaf in `a.b.c` and its own `a..b.c` cell empty |
| Pipeline.CorrectedScanThenEmit | src/main.rs:21-25 | with single-dot naming in SCAN, building the row of any scanned record never fails, at any nesting depth |
| Pipeline.EmitRowsOk | src/main.rs:176-179 | if every record's row can be built, EMIT gives one line per record, in order, each that record's line |
| Pipeline.ConvertShallow | src/main.rs:141-182 | for a corpus with no object inside a nested object, the output is the header from the scanned columns, then one row per record built against them |
| Pipeline.EmitPrintedPrefix | src/main.rs:176-179 | the printed lines are the rows of the first records, in order; printing stops at the first record whose row fails (exit in `construct_arr`/`construct_obj` or the `unwrap` panic), with that failure, and otherwise covers every record |
| Pipeline.EmitPrintedAgrees | src/main.rs:176-179 | EMIT as a result succeeds with exactly the printed lines when no row fails, and carries the stopping failure otherwise |
| Pipeline.RunAgreesWithConvert | src/main.rs:173-179 | a run prints the header first even when a row later fails; `Convert` is its output exactly when no row fails |
| Codec.Classify | src/main.rs:57-63 | zstd if and only if the four bytes are `28 b5 2f fd`; gzip if and only if the first two are `1f 8b`; plain otherwise |
| Codec.Sniff | src/main.rs:53-63 | fewer than four bytes is an error; otherwise the format is gzip if and only if the file starts with `1f 8b`, and zstd if and only if it starts with the zstd magic |
| Codec.SniffReadsFourBytes | src/main.rs:53-55 | only the first four bytes decide the format; what follows them does not |

## Findings

| source | as written | input that shows it | evidently intended | confidence | as-written member | corrected member |
|---|---|---|---|---|---|---|
| src/main.rs:24 | a nested object below the top level recurses with prefix `pfx + "." + key + "."`, and `pfx` already ends in a dot | `{"a":{"b":{"c":null}}}`: SCAN yields column `a..b.c`, EMIT looks up `a.b.c` and exits with "Column not found: a.b.c" | prefix `pfx + key + "."`, the naming `construct_obj` uses (line 99), so that every scanned record can be emitted | proved in the model, not executed | Pipeline.DoubleDotRowFails | Pipeline.CorrectedScanThenEmit |

## Left out

- Opening the file, `read_exact`, `seek`, and the gzip and zstd decoders in `fopen` (src/main.rs:50-55, 58-62) are I/O and foreign streams. Only the byte rule is modelled, as `Codec.Sniff` over the file's leading bytes.
- `main`'s argument check, line reading, `println!`/`eprintln!` and exit codes (src/main.rs:141-182) are I/O. The two passes are modelled as `Pipeline.Run` and `Pipeline.Convert` over one sequence of already parsed records. The model assumes both passes see the same records. In the program, `fopen(fpath)` reopens the path for the second pass (src/main.rs:174), so a file changed between the passes is not modelled.
- JSON text parsing (`json::parse`) and its errors belong to the json crate. The corpus is given as `Json.Value`s. Numbers are modelled as `real`. Duplicate keys are not excluded.
- `escape` and `JsonValue::to_string` are uninterpreted parameters, so no property of the text they produce is stated.
- Rows.ConstructArr: on failure its contract states only the failure, not what is left in the buffer, because the program exits at that point.
- Rows.ConstructObj: on failure its contract states only the failure, not what is left in the buffer, for the same reason.
- Rows.StoreField, Rows.StoreEntry, Rows.FillRow: on failure their contracts state only the failure, not what is left in the buffer, for the same reason.
- The `construct_row` closing loop is a separate method, `Rows.JoinRow`, and its entry loop another, `Rows.FillRow`; `Rows.ConstructRow` calls both.
- The body of each entry loop (the branch on array, object or scalar) is a method of its own, `Rows.StoreField` for `construct_obj` and `Rows.StoreEntry` for `construct_row`; the loops call it once per entry, in the same order and with the same early exit.
- Index arithmetic is over unbounded integers. `usize` overflow would need more elements than memory can hold.
