# yindian-server: request shaping of the pronunciation lookup service

yindian-server answers, for a string of Chinese characters, the readings that
a precompiled dictionary records for them in many languages and dialects,
and lists the languages it knows. It has two variants of the same service:

- `main.py` answers the **grouped form**: one `[字頭, 明細]` entry per queried
  character that has readings, each detail `[語言ID, 讀音]` or
  `[語言ID, 讀音, 註釋]`, characters in input order and details by language id.
  It allows up to 512 distinct characters.
- `server/app.py` answers the **pivot form**: a table whose header is
  `['語言ID', *chars]`, then one row per language id in ascending order, each
  cell `''`, a bare reading, or the JSON text of a list of `[讀音]` /
  `[讀音, 註釋]` entries. It allows up to 128 distinct characters and stamps
  answers with a build version read at start-up.

This project models the part of both files that has logic of its own. In
both files `_query_chars_sync` refuses a `None` argument with 400 and strips
and de-duplicates the input; server/app.py's refuses an uninitialised
version with 500 before stripping. (Through the HTTP route a missing
argument never reaches it: see "Left out".)
Both build one parameterised statement whose VALUES list has one `(?, ?)`
row per character, bound to the flat list `[ch1, 1, ch2, 2, …]`. The model
covers how the rows of the full-text join are shaped into either form, the
`{version, data}` envelope, and the language listing of each file.

The modules follow that structure:

| file | module | models |
|---|---|---|
| wrappers.dfy | `Wrappers` | `Option`, `Result` |
| response.dfy | `Response` | JSON values, the HTTP outcome (200 body or status with detail), the envelope |
| decimal.dfy | `Decimal` | decimal text of integers (`max=128`, `CAST(version AS TEXT)`) |
| request.dfy | `Request` | `str.strip`, `_dedup`, `_build_query`, `_make_params` and the binding of parameters to placeholders |
| store.dfy | `Store` | the dictionary store as the request path reads it, and the join of both statements |
| grouped.dfy | `Grouped` | main.py: ordering, grouping, detail entries, the payload, the guards, the listing |
| pivot.dfy | `Pivot` | server/app.py: the cell CASE rule, the pivot, the guards, the filtered listing |
| variants.dfy | `Variants` | how the two files agree and differ |

The full-text `MATCH` is abstracted into `Db.index`, a map from the bound
character text to the entries the engine returns for it. The join with
`info_rowid` keeps the entries whose short code has a language id, one hit
per such entry. In main.py, where the order reaches the answer, the model
gives the rows the order the statement asks for: `ORDER BY 字頭編號, 語言ID`
is an insertion sort (`Grouped.SortHits`), and the groups follow that order.
server/app.py's `ORDER BY r.語言ID` (server/app.py:98) is not modelled:
`Pivot.QueryHits` is the join in VALUES-row order. The table does not depend
on it, because the pivot sorts its index itself (`Pivot.LangIds`).

`_make_params` is a loop that appends to a list, so it is a method with a
loop invariant (`Request.MakeParams`), proved equal to the function
`Request.FlatParams` that the rest of the model uses.

### Behaviour of the code worth knowing

- Blank input (empty or whitespace only after `str.strip()`) gets a bare
  `[]` in both files (main.py:117-119, server/app.py:121-123), not an envelope
  with empty data.
- main.py's grouped answer and listing carry `b.version` as stored: the
  `build_version` column is an INTEGER, so the version is a JSON number there
  (`Store.SqlJson`). server/app.py sends the start-up string in `/chars/` and
  `CAST(b.version AS TEXT)` in `/list-langs/`.
- main.py answers `[]` when `build_version` is empty, because the statement
  then yields no row (main.py:136-137).
- In server/app.py, a queried character that has no reading in any language
  gives no pivot column. Selecting the columns in query order
  (server/app.py:144) then raises, and the generic handler turns that into
  500 "internal server error". So a table is answered exactly when every
  character has a reading (`Pivot.QuerySucceedsIff`). It is never a table
  with a column that has no reading behind it. A column can still be all
  `''`: a character whose only reading is the empty string, without
  annotation, shows `''` in its one language (`Pivot.EmptyReadingLooksMissing`).
- In server/app.py a single reading that is the empty string, with no
  annotation, is the bare cell `''`. That is the same cell `fillna('')` gives a
  language with no reading at all (`Pivot.EmptyReadingLooksMissing`).
- `簡稱 <> '漢字'` is not true for a NULL code either, so server/app.py's
  listing drops such rows too (`Pivot.Listed`).

## Model

The request handlers and the definitions they are built from carry no
contract of their own; the lemmas in the table state their behaviour:

- `Grouped.QueryChars` is `_query_chars_sync` of main.py (main.py:110-149):
  `Grouped.ValidationOrder`, `Grouped.GroupedAnswer`, `Grouped.LookupShape`.
- `Pivot.QueryChars` is `_query_chars_sync` of server/app.py
  (server/app.py:111-159): `Pivot.ValidationOrder`, `Pivot.QuerySucceedsIff`.
- `Grouped.Detail`, one `明細` entry (main.py:71-77): `Grouped.DetailRoundTrip`.
- `Pivot.CellValue`, the `CASE` value of a cell (server/app.py:81-91):
  `Pivot.CellRoundTrip`, `Pivot.CellEntryArity`, `Pivot.EmptyReadingLooksMissing`.
- `Pivot.Table`, `data_2d` (server/app.py:140-145): `Pivot.PivotTable`,
  `Pivot.PivotShape`, `Pivot.PivotLanguages`, `Pivot.PivotCells`.
- `Grouped.LangRow` (main.py:173-186) and `Pivot.LangRow`
  (server/app.py:180-200), one listing row: `Grouped.LangRows`,
  `Pivot.LangRows`, `Variants.ListingColumns`.

| member | source | states |
|---|---|---|
| Request.Strip | server/app.py:121-123 | `chars.strip()`: the result is a slice of the input, everything removed is whitespace, neither end of a non-empty result is whitespace, and the result is empty exactly when the input is all whitespace |
| Request.StripStart | server/app.py:121 | the leading cut of `str.strip()`: every skipped character is whitespace and it stops at a non-whitespace character or the end |
| Request.StripEnd | server/app.py:121 | the trailing cut: every dropped character is whitespace and it stops at a non-whitespace character or the start of the remainder |
| Request.Dedup | server/app.py:37-41 | `_dedup`: no repeated character, exactly the input's characters, never longer than the input |
| Request.DedupIsFirstOccurrences | server/app.py:41 | `_dedup` equals an independent definition that keeps each position where a character occurs for the first time |
| Request.DedupKeepsFirstOccurrenceOrder | main.py:13-17 | the output lists the characters in the order of their first occurrence in the input |
| Request.DedupOfDistinct | main.py:17 | input without repeats comes back unchanged |
| Request.DedupIdempotent | server/app.py:41 | de-duplicating twice is de-duplicating once |
| Request.DedupExample | server/app.py:38-39 | "漢漢字字" becomes "漢字" |
| Request.ValuesListShape | server/app.py:72 | `", ".join(["(?, ?)"] * n)` has n groups and 2n placeholders, and is one group followed by ", " and the list for n-1 |
| Request.BuildQuery | server/app.py:68-76 | `_build_query(n)` fails with "n must be > 0" exactly when n <= 0; otherwise the statement has 2n placeholders |
| Request.FlatParamsAt | main.py:99-108 | the flat list has 2·len(chars) items, `params[2i]` the i-th character and `params[2i+1]` the position i+1 |
| Request.MakeParams | server/app.py:100-109 | the appending loop of `_make_params` produces the flat list: length 2·len(chars), each character followed by its 1-based position |
| Request.Bind | server/app.py:136 | the engine accepts the parameters exactly when their number equals the placeholder count |
| Request.ParamsLineUp | server/app.py:130-131 | for non-empty input, `_build_query(len(chars))` succeeds and binding `_make_params(chars)` to it gives one VALUES row (character, position) per character, in order |
| Request.BoundRows | server/app.py:130-136 | the VALUES table the engine builds from `_build_query` and `_make_params` is (character, 1-based position) per character, in input order |
| Request.BindRefusesMismatch | main.py:126-132 | any other number of values is refused |
| Decimal.NatToText | main.py:124 | the decimal form of `MAX_CHARS` is a non-empty string of digits with no leading zero |
| Decimal.NatTextRoundTrip | main.py:124 | reading the decimal form back gives the number |
| Decimal.IntToText | server/app.py:206 | `CAST(version AS TEXT)`: a minus sign exactly for a negative value, followed by its digits |
| Decimal.IntTextRoundTrip | server/app.py:206 | the text form identifies the integer version: reading it back gives the same value |
| Response.EnvelopeFields | server/app.py:147-150 | the envelope has exactly the keys `version` and `data`, holding the version and the data array |
| Store.Normalized | main.py:73 | an annotation is kept exactly when it is neither NULL nor '', and a kept annotation is unchanged |
| Store.RowHits | server/app.py:92-96 | the hits of one VALUES row carry its character and position, a language that has an id, and come one per index entry with such a language: as many hits as there are entries in a language with an id |
| Store.RowHitsInOrder | server/app.py:92-96 | the i-th hit of a VALUES row is the hit of its i-th entry in a language with an id: an entry listed twice gives its hit twice, in index order |
| Store.Join | main.py:61-65 | a hit is in the join exactly when it is a hit of one of the VALUES rows, and the join has one hit per entry in a language with an id, summed over the rows (duplicates kept) |
| Store.JoinMultiplicity | main.py:61-65 | when no other VALUES row carries its position, a hit occurs in the join exactly as often as its own row yields it |
| Store.JoinOfQueryMultiplicity | server/app.py:92-96 | in the join for the queried characters, a hit at position j+1 occurs exactly as often as the j-th character's entries yield it |
| Store.JoinHitsBelong | main.py:54-65 | every hit of the join has a queried position p, the character at p, and a language id of `info_rowid` |
| Store.JoinOfQuery | server/app.py:92-96 | adds to that: a position, and a character, has hits exactly when the store has an entry for the character whose language has an id |
| Store.PositionHitIffMatched | server/app.py:92-96 | a queried position has a hit exactly when its character has an entry in a language with an id |
| Store.ColumnHitIffMatched | server/app.py:92-96 | a queried character appears in some hit exactly when it has an entry in a language with an id |
| Grouped.InsertHit | main.py:66 | inserting into an ordered list keeps it ordered by (position, language id) and adds exactly that hit |
| Grouped.SortHits | main.py:66 | `ORDER BY 字頭編號, 語言ID`: the result is ordered and a permutation of the input |
| Grouped.GroupByPosition | main.py:68-80 | `GROUP BY 字頭編號` over ordered hits: concatenating the groups gives the hits back, no group is empty, a group's members share one position and its character, and neighbouring groups have different positions |
| Grouped.GroupsAscend | main.py:66-79 | over ordered hits the groups' positions strictly increase |
| Grouped.GroupMembersByLanguage | main.py:66-79 | over ordered hits each group's members are in ascending language id |
| Grouped.DetailRoundTrip | main.py:71-77 | a detail entry has exactly 2 elements without an annotation and 3 with one, and decodes back to language id, reading and annotation |
| Grouped.GroupedDataShape | main.py:81-90 | the payload has one `[字頭, 明細]` entry per group, in order, with one detail per member that decodes back to that member |
| Grouped.LookupHitsSorted | main.py:54-67 | the `hits` CTE is ordered by (position, language id) |
| Grouped.LookupHitsAreJoin | main.py:54-67 | the `hits` CTE is ordered and is a permutation of the join of the bound VALUES table: the same hits, each as often |
| Grouped.ValidationOrder | main.py:114-124 | guards in order: `chars` None gives 400 "chars is required", blank input `[]`, more than 512 distinct characters 400 "too many chars; max=512" |
| Grouped.GroupedAnswer | main.py:126-140 | past the guards: `[]` when the statement yields no row, otherwise `{version, data}` with the stored version and the grouped payload |
| Grouped.GroupsAtQueriedPositions | main.py:51-80 | every group sits at a queried position and carries that position's character |
| Grouped.GroupIffMatched | main.py:54-80 | a position has a group exactly when the store has a reading for its character in a language with an id |
| Grouped.GroupsIffMatched | main.py:54-80 | the same for every queried position at once: characters without readings are left out |
| Grouped.AllGroupedIffAllMatched | main.py:54-80 | every queried position has a group exactly when every queried character has a reading |
| Grouped.GroupsInInputOrder | main.py:66-79 | groups follow input order: positions strictly increase |
| Grouped.GroupsByLanguage | main.py:66-77 | the details of every group are in ascending language id |
| Grouped.LookupShape | main.py:54-97 | the grouped answer: input order, queried positions with their characters, a group exactly for the characters with readings, none empty, details by language id |
| Grouped.LangRows | main.py:173-192 | one 13-field row per `info` row, unfiltered and in storage order: the ROWID, then 語言 … 陳邡分區 and 經緯度, each the stored value of that column |
| Grouped.ListLangs | main.py:194-209 | `[]` without a `build_version` row; otherwise an object with exactly the keys `version` and `data`, `version` the stored value, `data` a list with one 13-field row per `info` row, in order, each the ROWID and the stored columns of that row; `data` is exactly the listing `Grouped.LangRows` of `info` |
| Pivot.CellRoundTrip | server/app.py:81-91 | a cell is a bare string exactly for one reading without annotation, and decoding any cell gives every reading of the group with its annotation, in order |
| Pivot.CellEntryArity | server/app.py:84-90 | a list cell has one entry per reading: `[讀音]` without an annotation, `[讀音, 註釋]` with one |
| Pivot.EmptyReadingLooksMissing | server/app.py:82-83 | a single empty reading without annotation gives the cell `''`, the same as a missing cell |
| Pivot.CellHits | server/app.py:97 | the hits of a cell are exactly those of its language and its character, each as often as it occurs in the hits |
| Pivot.CellFromOwnRow | server/app.py:82-97 | with distinct characters, the cell of a language and the j-th character holds, duplicates included, exactly the hits of that character's own VALUES row in that language; so `COUNT(*)` counts that character's entries in that language |
| Pivot.LangIds | server/app.py:140 | the pivot's index is strictly ascending and holds exactly the language ids that occur in the hits |
| Pivot.PivotTable | server/app.py:140-145 | the column selection succeeds exactly when every queried character has a column (a hit), and then gives the table |
| Pivot.PivotShape | server/app.py:140-145 | the header is `['語言ID', *chars]`, then one row per language id, every row len(chars)+1 wide and starting with its id |
| Pivot.PivotLanguages | server/app.py:140-142 | the ids in the first column strictly ascend, and every language with a hit has a row |
| Pivot.PivotCells | server/app.py:140-142 | the cell of a language and a character is `''` when they have no hit together, else the CASE value of those hits |
| Pivot.CellHitsEmpty | server/app.py:142 | a cell's group is empty exactly when the language has no reading for the character |
| Pivot.SameCharSamePosition | server/app.py:97 | with distinct characters, hits of one character come from one VALUES row, so pivoting on 字頭 groups as `GROUP BY 字頭編號` does |
| Pivot.ValidationOrder | server/app.py:115-128 | guards in order: `chars` None 400, missing version 500 even for blank input, blank input `[]`, more than 128 distinct characters 400 "too many chars; max=128" |
| Pivot.ColumnsIffMatched | server/app.py:144 | a queried character has a pivot column exactly when the store has a reading for it in a language with an id |
| Pivot.AllColumnsIffAllMatched | server/app.py:144 | the column selection finds every queried character exactly when every queried character has a reading |
| Pivot.QuerySucceedsIff | server/app.py:130-159 | past the guards the answer is a table exactly when every character has a reading, then `{version, data}` with the start-up version; otherwise 500 "internal server error" |
| Pivot.LangRows | server/app.py:180-203 | 14 fields per row, no 漢字 or NULL code, exactly the rows of the listed languages, never more rows than `info` |
| Pivot.LangRowsAscending | server/app.py:181-190 | in storage order the listing is in strictly ascending language id |
| Pivot.ListLangs | server/app.py:204-221 | `[]` without a `build_version` row; otherwise an object with exactly the keys `version` and `data`, an integer version as a string that reads back as that integer (a text version as itself, a NULL version as null), `data` a list of 14-field rows, no more than `info` has, none for 漢字 or a NULL code, holding exactly the rows of the listed languages; `data` is exactly the listing `Pivot.LangRows` of `info` |
| Variants.SameJoin | server/app.py:75-96 | both statements join the same hits for the same characters |
| Variants.PivotOkIffEveryPositionGrouped | server/app.py:144 | server/app.py answers a table exactly when main.py's answer has a group at every queried position |
| Variants.LimitsDiffer | server/app.py:11 | between 129 and 512 distinct characters server/app.py answers 400 where main.py answers |
| Variants.VersionGuardOnlyInServer | server/app.py:118-119 | without a version server/app.py answers 500 to any present argument; main.py has no such guard, and its guards answer only 400 |
| Variants.ListingColumns | server/app.py:194-200 | main.py's listing row is server/app.py's without 地點 |
| Variants.ListingSubset | server/app.py:190 | every language server/app.py lists, main.py lists at the same `info` position with the same fields but 地點 |

## Left out

- Opening the read-only connection and its pragmas (server/app.py:43-61, main.py:19-37): engine configuration and I/O.
- The `lifespan` start-up and the global `BUILD_VERSION`: the version is an `Option<string>` parameter of `Pivot.QueryChars`.
- FastAPI's validation of the routes' required `chars` query parameter (main.py:152, server/app.py:162): a request without it is answered 422 by FastAPI before `_query_chars_sync` runs. The model's 400 "chars is required" is that function's own guard, reached only by a direct call.
- Store errors in main.py and server/app.py (main.py:144-149, server/app.py:154-159): an OperationalError, invalid JSON or any other exception is a 500. Apart from server/app.py's KeyError they are not modelled, so the model's main.py guards answer only 400.
- FastAPI routing, `run_in_threadpool` and the `json.dumps` byte serialisation: library code. Answers are JSON values, not bytes.
- The full-text engine. `MATCH '字組:'||字頭` is abstracted as the lookup `Db.index`. A character the query syntax rejects would raise an OperationalError (a 500) that the model does not produce.
- The SQLite JSON functions and pandas as engines. Only their observable results are modelled. A list cell is `JEncoded`, JSON text inside a string, because pandas never parses what `json_group_array` returns.
- Exception-to-message mapping: "database error: …" and "database returned invalid json" cannot arise in the model. The pivot's KeyError is the one error modelled, as 500 "internal server error".
- REAL values of `info` columns and of `build_version`: `Store.SqlValue` has NULL, INTEGER and TEXT only.
- SQL's unspecified order of groups and of `json_group_array` members, in main.py and in server/app.py (server/app.py:84-90). main.py's are modelled in the order of the `hits` CTE, server/app.py's in the order of the join, so the "in order" of `Pivot.CellRoundTrip` is the model's join order. The model breaks ties in `ORDER BY 字頭編號, 語言ID` by its insertion sort; SQL leaves them unspecified.
- `build/update_db.py`: the offline script that builds `info_rowid` and `build_version`. Its tables are inputs (`Db.langIds`, `Db.versions`).
