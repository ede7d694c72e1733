# Open in CARTO — a Dafny model of the export core

The Qlik Sense extension `open_in_carto.js` draws an "Open in CARTO" button
under a hypercube of dimensions. `paint` first pulls every page of the
hypercube from the host, 3000 rows at a time, advancing a module-wide cursor
`lastRow`; once all pages are in it resets the cursor and (while no export is
in flight) redraws the button. A click sets `status` to SENDING, shows
"Sending..." and posts a chain of SQL statements to the CARTO SQL API:

- `TRUNCATE TABLE t`; if it succeeds the table exists (existing-table path),
  if it fails the table is new (new-table path);
- `CREATE TABLE IF NOT EXISTS t (…)`, one column per dimension, two
  (`latitude`, `longitude`, `double precision`) for a `$geopoint` dimension,
  `numeric` for a `$numeric` one and `text` otherwise;
- `INSERT INTO t VALUES (…),(…)` for a new table, or
  `INSERT INTO t (names) VALUES …` for an existing one, one tuple per data
  row; a geopoint cell `[lon,lat]` becomes `lat,lon` (new table) or
  `ST_SetSRID(ST_MakePoint(lon,lat),4326),lat,lon` (existing table), any
  other cell its text, unquoted; the column-name header is built while
  serialising the row the host numbers 1;
- for a new table, `SELECT cdb_cartodbfytable('account', 't'); UPDATE …`,
  and on failure the one-argument variant.

A failed TRUNCATE selects the new-table path and a failed two-argument
cartodbfy posts the fallback; a failed CREATE, INSERT or fallback cartodbfy
ends the chain with "Retry"; the last statement of the path succeeding ends
it with "Success"; both set `status` back to IDLE.

The model is split as the program is:

- `Strings` — the string idioms the SQL is built with: `join(",")`,
  `slice(0, -1)` after appending `part + ","`, and the
  `if (acc) { acc += ","; } acc += part` accumulation; `Split` is the
  inverse the joins are checked against.
- `Hypercube` — dimensions (`qTags`, `qFallbackTitle`), cells and data rows.
- `Pagination` — the page plan of `paint` as a function of the cursor.
- `CreateTable` — the CREATE statement, as a specification function and as
  the loop of `populateTable` proved to compute it.
- `InsertRows` — the row serializer of `sendData`, as specification
  functions and as the nested loops proved to compute them.
- `Workflow` — the chain of posts as a state machine driven by the sequence
  of replies (`true` for `.done`, `false` for `.fail`).
- `OpenInCarto` — the class `Extension` with the module state the source
  updates in place (`lastRow`, `status`, the button text), its paging loop,
  `paint`'s redraw and the click handler; and the chain of callbacks as a
  loop issuing each statement.

Behaviour kept exactly as written:

- Paging requests rows `lastRow + 1 …`, so from a cursor of 0 row 0 is never
  requested, and the last page may reach one index past the last row
  (`Pagination.FinalCursorValue`, `Pagination.PlanCovers`). Every page is at
  least two rows high.
- A field separator is added only when the text so far is non-empty, so a
  row whose leading cells have empty text loses those fields and their
  commas (`InsertRows.LeadingEmptyFieldsDropped`); the lemmas that equate a
  tuple or the header with the plain join of its fields carry that case in
  their preconditions.
- The header is never started over: a second row numbered 1 appends its
  names (after a comma) to the already wrapped header and wraps it again, so
  one dimension titled `a` and two rows numbered 1 give `((a),a)`; with
  exactly one such row it is that row's names in parentheses
  (`InsertRows.HeaderMatchesRow`), with none it is empty
  (`InsertRows.HeaderAbsent`).
- Cell and title texts are pasted into the SQL unescaped.

## Model

| member | source | states |
|---|---|---|
| Pagination.Plan | open_in_carto.js:49-58 | no page is requested exactly when the cursor is already at or past `rowCount - 1` |
| Pagination.PlanBounds | open_in_carto.js:49-58 | every requested page is 2 to 3000 rows high, starts after the cursor, ends no later than the row count, has `qLeft` 0 and `qWidth` the plan's width (which `FetchPages` sets to the layout's number of dimensions) |
| Pagination.FinalCursor | open_in_carto.js:49-61 | the cursor only moves forward, and after any page it stops at `rowCount - 1` or `rowCount` |
| Pagination.PlanContiguous | open_in_carto.js:49-59 | the first page starts right after the cursor and each page starts where the previous one ended: no row is skipped or requested twice |
| Pagination.FinalCursorValue | open_in_carto.js:49-65 | the paging ends with the cursor at `rowCount - 1` exactly when `(rowCount - lastRow) % 3000 == 1`, and at `rowCount` otherwise |
| Pagination.PlanCovers | open_in_carto.js:49-59 | a row is requested exactly when it lies after the starting cursor and at or before the final cursor |
| OpenInCarto.Extension.constructor | open_in_carto.js:9-13 | the extension starts with cursor 0, status IDLE and the button text "Open in CARTO" (the button itself is first drawn by an IDLE `paint`, line 185) |
| OpenInCarto.Extension.FetchPages | open_in_carto.js:49-65 | the pages requested, in order, are the plan from the current cursor with the layout's number of dimensions as width, and the cursor is reset to 0 afterwards |
| OpenInCarto.Extension.Paint | open_in_carto.js:42-189 | fetches the plan's pages, as wide as the layout has dimensions, and resets the cursor; redraws the button as "Open in CARTO" only when the status is IDLE, leaving the button text alone while a chain is in flight; keeps "the button reads Sending... exactly while SENDING" |
| OpenInCarto.Extension.Click | open_in_carto.js:191-203 | the statements posted are the texts of the posts `Drive` sends from TRUNCATE on the given replies, TRUNCATE itself before any reply and the statement still awaiting its reply included; the status and button text end as that run leaves them (SENDING/"Sending..." while a reply is awaited, IDLE with "Success" or "Retry" after a terminal callback), keeping "Sending... exactly while SENDING" |
| OpenInCarto.Extension.Settle | open_in_carto.js:118-155 | after a reply, a terminal callback sets IDLE and "Success" or "Retry" by the outcome; otherwise the state stays SENDING/"Sending..." |
| OpenInCarto.RunChain | open_in_carto.js:118-202 | TRUNCATE is posted first and each callback that does not end the chain posts the next statement: the texts sent are exactly those of the posts `Drive` sends, in order, and the loop stops in `Drive`'s final phase |
| OpenInCarto.PostText | open_in_carto.js:119-196 | the text built for each post is that post's statement: TRUNCATE, the CREATE statement, the new-table INSERT over the VALUES list, the existing-table INSERT with the header, or either cartodbfy variant |
| CreateTable.BuildCreate | open_in_carto.js:158-172 | the CREATE loop produces `CREATE TABLE IF NOT EXISTS t (` + the definitions of the table's columns comma-joined in dimension order + `)` |
| CreateTable.DimensionText | open_in_carto.js:162-171 | what the CREATE loop appends for one dimension is that dimension's column definitions, each followed by a comma |
| CreateTable.OneDimension | open_in_carto.js:163-170 | a `$geopoint` dimension gives `latitude double precision,longitude double precision`, a `$numeric` one `title numeric`, any other (tagless included) `title text` |
| CreateTable.ColumnListAppend | open_in_carto.js:162-172 | adding a dimension appends its entry after exactly one comma |
| CreateTable.ColumnListSplits | open_in_carto.js:162-172 | when no title holds a comma, splitting the column list at commas gives back exactly the column definitions in order |
| InsertRows.SerializeRows | open_in_carto.js:70-116 | after all rows, `sqlNames` is the header folded over the rows and `sqlValues` is each row's parenthesised tuple followed by a comma, in row order |
| InsertRows.SerializeRow | open_in_carto.js:76-116 | one row's cell loop yields the cells' fragments accumulated with the separator idiom and, for a row numbered 1, the dimensions' names accumulated onto the running header and wrapped in parentheses |
| InsertRows.SerializeCell | open_in_carto.js:79-110 | one cell appends its value fields (and for row 1 its dimension's names) to the text so far, with a comma only when that text is non-empty |
| InsertRows.CellText | open_in_carto.js:91-109 | a geopoint cell is written `lat,lon` for a new table and `ST_SetSRID(ST_MakePoint(lon,lat),4326),lat,lon` for an existing one; another cell is its text |
| InsertRows.NameText | open_in_carto.js:91-106 | a geopoint dimension names `latitude,longitude` (new table) or `the_geom,latitude,longitude` (existing table); another dimension names its title |
| InsertRows.RowArity | open_in_carto.js:86-110 | the names a row numbered 1 adds and the values any row with as many cells adds are equally many fields |
| InsertRows.TupleFields | open_in_carto.js:77-115 | unless the first cell is a non-geo cell with empty text, a row's tuple is all its fields comma-joined in parentheses |
| InsertRows.LeadingEmptyFieldsDropped | open_in_carto.js:79-115 | in general a row's tuple is the comma-join of its fragments with the leading empty ones dropped |
| InsertRows.HeaderPrefix | open_in_carto.js:86-114 | with exactly one row numbered 1, the header is empty before that row and that row's names in parentheses from it on |
| InsertRows.HeaderAbsent | open_in_carto.js:86-114 | with no row numbered 1 the header stays empty |
| InsertRows.HeaderMatchesRow | open_in_carto.js:76-115 | with exactly one row numbered 1 (its first title and first text non-empty or its first column a geopoint), the header and that row's tuple are both parenthesised comma-joins of equally many fields |
| InsertRows.ValuesListJoinsTuples | open_in_carto.js:115-119 | the VALUES list after `slice(0, -1)` is the rows' tuples comma-joined in row order |
| InsertRows.NewTableMatchesCreate | open_in_carto.js:93-97 | for a new table, a full row's fields line up one to one with the CREATE statement's columns, and the new-table names are exactly those columns' names |
| InsertRows.NamesMatchColumns | open_in_carto.js:93-106 | the new-table names of the first n dimensions are the names of the columns CREATE defines for them |
| Strings.DropLastTerminated | open_in_carto.js:161-172 | stripping the last comma of a text built by appending `part + ","` gives the comma-join of the parts |
| Strings.AppendAllFromEmpty | open_in_carto.js:82-84 | accumulating with "comma only when non-empty" from "" gives the comma-join of the fragments after the leading empty ones |
| Strings.AppendAllAfterNonEmpty | open_in_carto.js:82-84 | once the text is non-empty every further fragment gets its comma |
| Strings.SplitJoin | open_in_carto.js:162-172 | splitting at commas undoes joining when no part holds a comma |
| Workflow.Next | open_in_carto.js:174-202 | each callback brings the chain strictly closer to its end, and it ends in success only on a `.done` of the existing-table INSERT or of either cartodbfy post |
| Workflow.Drive | open_in_carto.js:118-202 | the chain sends its first post before any reply and at most five posts; while waiting it has sent one post more than it has replies, the last being the post awaiting its reply; once finished every post has had its reply; it always finishes once enough replies are given |
| Workflow.PostsFollowPath | open_in_carto.js:196-202 | TRUNCATE is always posted first, and once it has its reply the posts sent are a prefix of one path: TRUNCATE, CREATE, INSERT (with header) when TRUNCATE succeeds; TRUNCATE, CREATE, INSERT, cartodbfy, fallback cartodbfy when it fails |
| Workflow.PostsWithinPath | open_in_carto.js:118-181 | from any phase after TRUNCATE, the posts issued are a prefix of that phase's path, whatever the replies |
| Workflow.DriveSnoc | open_in_carto.js:118-202 | one more reply runs the callback of the post awaiting it, which posts the next statement unless it ends the chain; a finished chain ignores the reply |
| Workflow.DriveExtends | open_in_carto.js:118-202 | replies arriving after the chain has finished change neither the posts nor the final state |
| Workflow.CreateFailureStops | open_in_carto.js:174-181 | a failed CREATE ends the chain with "Retry" after exactly TRUNCATE and CREATE; nothing is inserted |
| Workflow.SuccessIff | open_in_carto.js:118-155 | the chain ends in "Success" exactly when CREATE and INSERT succeed and, on the new-table path, one of the two cartodbfy posts succeeds |
| Workflow.SuccessAfterLastPost | open_in_carto.js:118-155 | "Success" is shown only right after a `.done` of the existing-table INSERT or of a cartodbfy post |
| Workflow.FallbackOnlyAfterCartodbfyFails | open_in_carto.js:121-139 | the one-argument cartodbfy is posted exactly when TRUNCATE fails, CREATE and INSERT succeed and the two-argument cartodbfy fails, as soon as that fourth reply arrives |

## Left out

- Drawing: the injected stylesheet, the button and dashboard HTML and the re-binding of the click handler are not modelled; the button's text is the field `buttonText`, which the constructor sets to "Open in CARTO" although the source draws the button only on the first IDLE `paint`.
- OpenInCarto.Extension.FetchPages: every `getData` request is taken to resolve. In the source a rejected or never-answered page request never runs its `.then`, so the cursor is neither advanced nor reset to 0, the button is not drawn, and the next `paint` resumes from that cursor; `ensures lastRow == 0` holds only when every page arrives.
- The host API: `getRowCount`, `getData` and `eachDataRow` become the parameters `rowCount`, the returned page requests and the `rows` sequence; the pages' contents are not modelled, and the row count is taken as fixed while paging.
- Network: each `$.post` is a statement text plus a reply supplied in `outcomes`; a statement counts as sent when it is posted, before its reply; the SQL API URL and API key are not modelled.
- Asynchrony: the re-entry of `paint` after each page and the callbacks of the posts run one after another in loops; a second click while a chain is in flight, and interleaved repaints, are not modelled.
- `createDashboard` and the `v2`→`v3` rewrite of the visualisation URL are not modelled: they only draw.
- The property panel (`initialProperties`, `definition`, `config.getSettings`) is not modelled.
- `JSON.parse` of a geopoint cell is not modelled: the cell is given as its parsed pair, the numbers kept as their text, and a geopoint column is required to hold such a pair; a row is required to have no more cells than there are dimensions.
- Number formatting and JavaScript number precision are not modelled: integers are unbounded.
- SQL escaping is absent from the source and is not added.
