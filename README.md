# Appraisal reports: form state, control numbers and child tables

This project models the sequential logic at the centre of a small web
application for real-estate appraisal reports ("laudos periciais"). The browser
client keeps a report's form state. The server stores reports in SQLite, with
child rows for areas, comparables, photos and documents.

On the client (`public/js/app.js`) the model covers:

- JSON values and the recursive merge `mergeDeep` (module `Json`).
- The dotted-path write `setValue` and read `getValue` (module `Json`).
- The default skeleton `defaultDados` (module `Client`).
- `carregarAvaliacao`, which builds the state from the server's report, and
  `restaurarDoLocalStorage`, which lets the cached snapshot override it
  (class `Client.FormState`).
- The string step of `parseCurrency`, the semicolon-separated area import,
  removal by index with `splice`, removal of photos and documents by id, and
  the backslash-to-slash normalisation of stored paths (modules `FormEdits`,
  `Records`).

On the server (`server.js`) the model covers:

- Control numbers `RL <seq>-<year>` and their parse, increment and format
  (module `ControlNumber`).
- multer's file-name sanitiser and upload-directory rule, and the caption of an
  uploaded photo (module `Uploads`).
- `salvarAreas` / `salvarComparativos`: the report's child rows are deleted,
  then the new ones are inserted in order (class `Tables.ChildTable`).
- The photo and document inserts on upload, and delete-by-id with not-found
  handling (classes `Tables.FotoTable`, `Tables.DocumentoTable`).

Some inputs come from outside the code: the database handle, the clock
(`Date.now()`, today's date), the browser's local storage and the network.
The model takes each as a parameter: the newest control number of the year,
the timestamp, the date string, the parsed cache entry, and the server's
report.

Modules: `Wrappers` (Option, Result), `Text` (split/join, decimal digits),
`Json`, `ControlNumber`, `Uploads`, `Records`, `Tables`, `FormEdits`, `Client`.

Two consequences of the code are worth knowing before reading the model:

- Restoring from the local cache replaces the whole form data with
  `mergeDeep(defaultDados(), parsed.dados || {})` (public/js/app.js:1234),
  and so drops the data that came from the server.
- A skeleton path survives a restore only when the cached data keeps the
  skeleton's shape: a string where the skeleton has a section object replaces
  that whole section. `Client.RestoreKeepsSkeleton` therefore requires
  `Conforms`.

## Model

| member | source | states |
|---|---|---|
| Json.Merge | public/js/app.js:133-147 | A non-object target gives the source back. A non-object source gives the target back. For two objects: the keys are exactly the union of both objects' keys. A target key missing from the source keeps its value. A source key holding a scalar, null or array ends up holding exactly that value. A source key holding an object yields an object that contains all of that object's keys. Two arrays merge into an array of the longer length, and the target's tail past the source stays. |
| Json.MergeEntry | public/js/app.js:137-144 | One source entry: a non-object value replaces the target's entry. An object value yields an object holding all its keys. |
| Json.MergeIntoEmpty | public/js/app.js:140-141 | Merging an object into `{}`, which happens when `target[key]` is falsy, gives that object back unchanged. |
| Json.MergeSelf | public/js/app.js:133-147 | Merging a value into itself gives that value back. |
| Json.MergeAbsorb | public/js/app.js:133-147 | Merging the same target in a second time changes nothing: `mergeDeep(t, mergeDeep(t, s)) == mergeDeep(t, s)`. |
| Json.MergeEntryAbsorb | public/js/app.js:137-144 | The per-entry form of the absorption law. |
| Json.MergeKeepsTargetPaths | public/js/app.js:136-144 | Every key path of the target still exists after merging a source that keeps the target's shape. |
| Json.MergeSourceLeafWins | public/js/app.js:138-143 | A scalar, null or array that the source holds at a key path is exactly what the result holds there. |
| Json.MergeNestedExample | public/js/app.js:140-141 | `{a:{x:1}}` merged with `{a:{y:2}}` is `{a:{x:1,y:2}}`. |
| Json.MergeArrayExample | public/js/app.js:138-139 | An array in the source replaces the target's array wholesale, with no element-wise merge. |
| Json.OrEmptyObject | public/js/app.js:1234 | `v \|\| {}`: a truthy value is kept; undefined or a falsy value gives `{}`. |
| Json.ArrayIndex | public/js/app.js:162 | A key read as an array index names a position below 2^32-1, the largest JavaScript array index. |
| Json.GetValue | public/js/app.js:161-163 | `getValue` never yields null: the trailing `?? ''` turns null and undefined into `''`. |
| Json.Property | public/js/app.js:162 | `acc[key]`: an object yields its field. Arrays and strings yield `length`, and an element or a one-character string at a canonical index below the length. Null, booleans and numbers yield undefined. |
| Json.ReadStep | public/js/app.js:162 | `acc ? acc[key] : ''`: undefined or a falsy value reads `''`; an object reads its field. |
| Json.ReadKeys | public/js/app.js:162 | `reduce` from the left: no keys leave the start value, and the result for a path is one step applied to the result for the path without its last key. |
| Json.ReadAfterUndefined | public/js/app.js:162 | Once a step yields undefined, the next key reads `''` and every later step stays `''`. |
| Json.ReadFromEmptyString | public/js/app.js:162 | Reading any keys from the falsy `''` stays `''`. |
| Json.MissingKeyReadsEmpty | public/js/app.js:161-163 | A path whose first key is missing reads as `''`. |
| Json.SetPath | public/js/app.js:149-159 | Writing into null throws. On an object, the result has the old keys plus the first key of the path, and every other key keeps its value. |
| Json.SetPathReaches | public/js/app.js:149-158 | When every existing container on the path is a plain object, the write succeeds, and the value sits at the path below plain objects only. |
| Json.ReachesReads | public/js/app.js:161-163 | A value sitting at a path below plain objects is what the `reduce` in `getValue` reads there. |
| Json.SetThenGet | public/js/app.js:149-163 | `setValue(p, v)` followed by `getValue(p)` yields `v`, or `''` when `v` is null, provided every existing container on `p` is a plain object. |
| Json.ObjectsAlongHasNoArray | public/js/app.js:149-158 | A path through plain objects meets no array. This is the precondition of the functional write. |
| Text.Split | public/js/app.js:150 | `split` with a one-character separator never returns an empty list, and no piece holds the separator. |
| Text.JoinSplit | public/js/app.js:150 | Joining the pieces of a split gives the string back. |
| Text.SplitJoin | public/js/app.js:635 | Splitting a join of separator-free pieces gives the pieces back. |
| Text.Decimal | server.js:53 | `String(n)` is a non-empty digit string with no leading zero. |
| Text.DecimalValue | server.js:50 | `parseInt` of `String(n)` is `n`. |
| Text.DigitsValue | server.js:50 | `parseInt` of a digit string is zero exactly when every digit is `0`. |
| Text.LeadingZerosValue | server.js:50 | `parseInt` ignores leading zeros, such as those `padStart` adds. |
| Text.PadZeros | server.js:53 | `padStart(width, '0')` pads on the left to the width and never truncates a longer string. |
| ControlNumber.SkipSpaces | server.js:48 | Greedy `\s*`: the run ends at the end of the text or at a non-space character. |
| ControlNumber.SkipDigits | server.js:48 | Greedy `\d+`: the run ends at the end of the text or at a non-digit character. |
| ControlNumber.MatchAt | server.js:48 | A match at a given position captures a non-empty run of digits. |
| ControlNumber.FindMatch | server.js:48 | `match` without the `g` flag finds the leftmost match. The result is none exactly when no position matches. Otherwise it is the non-empty run of digits captured at some position, and no earlier position matches. |
| ControlNumber.ParseSequenceLeftmost | server.js:48-50 | A control number yields a sequence exactly when the pattern matches somewhere. The sequence is `parseInt` of the digits captured by the leftmost match. |
| ControlNumber.FormatShape | server.js:53 | A formatted control number is `RL `, then at least three digits, then `-` and the year. |
| ControlNumber.NextControlShape | server.js:37-58 | Whatever the previous control number is, the new one has the shape `RL <three or more digits>-<ano>`. |
| ControlNumber.MatchFormatted | server.js:48 | The pattern matches `RL <digits>-<year>` and captures the digits. |
| ControlNumber.FirstOfYear | server.js:46-53 | With no previous control number in the year, the result is `RL 001-<ano>`. |
| ControlNumber.UnparsableRestarts | server.js:46-53 | A previous control number that does not match the pattern restarts the sequence at 1. |
| ControlNumber.NextAfterParsed | server.js:47-53 | A previous control number that parses to `n` yields the formatted sequence `n + 1`. |
| ControlNumber.ParseFormat | server.js:48-53 | Parsing a formatted control number recovers its sequence, for any sequence and any year of at least four digits. |
| ControlNumber.NextIsSuccessor | server.js:47-53 | The new control number parses to the previous sequence plus one. |
| ControlNumber.FormatInjective | server.js:53 | Different sequences in the same year never share a control number. |
| ControlNumber.SuccessorExample | server.js:47-53 | `RL 007-2024` is followed by `RL 008-2024`. |
| Uploads.Sanitize | server.js:31 | Sanitising keeps the length. Every output character is in `[a-zA-Z0-9._-]`. A character is kept exactly when it is already in that set, and is `_` otherwise. |
| Uploads.SanitizeIdempotent | server.js:31 | Sanitising twice is sanitising once. |
| Uploads.StoredFilename | server.js:29-32 | `<timestamp>-<sanitized>` has the expected length and holds only allowed characters. |
| Uploads.StoredFilenameHasNoSeparator | server.js:29-32 | A stored name holds no `/` or `\`, so the file stays inside the upload directory. |
| Uploads.StoredFilenameTimestamp | server.js:29-32 | The part before the first `-` is the timestamp's decimal form, and it parses back to the timestamp. |
| Uploads.FirstGiven | server.js:19 | `a \|\| b`: the first non-empty field, or none when both are absent or empty. |
| Uploads.Destination | server.js:18-26 | A missing `controle` is an error. Otherwise the directory is `uploads/<controle>/<tipo>`, where `tipo` is the first field given, or `outros`. The segments are the request's text, unchecked. |
| Uploads.DestinationEscapes | server.js:19-24 | With `controle = "../<name>"`, the directory that `path.join` resolves is `<name>/outros`, outside `uploads`. |
| Uploads.DestinationEscapesToPublic | server.js:15-24 | With `controle = "../public"`, the upload lands in `public/outros`, inside the published web root. |
| Uploads.ClimbResolve | server.js:24 | `path.join` resolves `base/../name/tipo` to `name/tipo`. |
| Uploads.ResolveSafe | server.js:24 | A path made of plain directory names resolves to itself. |
| Uploads.CheckedDestination | server.js:18-26 | Corrected rule: a request whose `controle` or `tipo` is not a plain directory name is refused. Any other request gets the same directory as `Destination`, and that directory resolves to itself inside `uploads`. |
| Uploads.RelativePath | server.js:359 | `path.relative(__dirname, file.path)` records the normalised path: with `/` it splits back into the climbs and names that `path.join` resolves the directory and file to. When every segment is a plain directory name, that is exactly the directory segments and the file name, with either separator. |
| Uploads.RelativePathNormalises | server.js:19-24 | `controle = ".."` is accepted, the file is stored in `outros` beside `uploads`, and the recorded path is `outros/<file>`. |
| Uploads.ClimbRelative | server.js:359 | A file stored under `base/../tipo` is recorded as `tipo/<file>`. |
| Uploads.FieldBefore | server.js:19-23 | What multer has put in `req.body` when it reaches a part: the value of a text part of that name before it, and none exactly when no such part precedes it. |
| Uploads.DestinationAt | server.js:18-26 | `destination` for a file part refuses exactly when no non-empty `controle` precedes the file and the query has none. |
| Uploads.PhotoParts | public/js/app.js:874-879 | The photo parts start with a file, and none of their caption parts is named `controle` or `tipo`. |
| Uploads.PhotoUploadRefused | public/js/app.js:874-883 | Every photo the client sends is refused with the missing-`controle` error, because `controle` is appended after the photos. |
| Uploads.CorrectedPhotoUploadAccepted | public/js/app.js:874-883 | With `controle` appended first, every photo goes to `uploads/<controle>/outros`. |
| Uploads.DocumentUploadRefused | public/js/app.js:909-914 | The client's document is refused with the missing-`controle` error, because the file is the first part. |
| Uploads.CorrectedDocumentUploadAccepted | public/js/app.js:909-914 | With the text fields appended first, the document goes to `uploads/<controle>/<tipo>`. |
| Uploads.CaptionKey | server.js:358 | A caption field name starts with `l`, so it is never `controle` or `tipo`. |

| Uploads.Caption | server.js:358 | The caption is `legenda_<i>` when present and non-empty, and the original file name otherwise. |
| Records.WithoutId | public/js/app.js:814 | The filter is never longer than the list. Every element it keeps has a different id. Every element with a different id is kept. |
| Records.WithoutIdCounts | public/js/app.js:814 | Multiplicity: an element with the filtered id occurs zero times in the result. Any other element occurs as often as in the list. |
| Records.WithoutIdAppend | public/js/app.js:814 | Order: filtering a concatenation filters each part and keeps the parts in order. |
| Records.WithoutAbsentId | public/js/app.js:814 | Filtering out an id that no element carries changes nothing. |
| Records.WithoutIdRemovesOne | public/js/app.js:840 | With unique ids, filtering out the id of element `k` removes exactly that element. |
| Records.WithoutIdIdempotent | public/js/app.js:814 | Filtering twice by the same id is filtering once. |
| Tables.Stored | server.js:86-90 | `x \|\| null`: the stored value is null or truthy. A truthy field is stored as it is; a missing or falsy field is stored as null. |
| Tables.ColumnValues | server.js:84-91 | One placeholder value per column, each the item's field under `\|\| null`. |
| Tables.NewRows | server.js:83-92 | The inserted rows are numbered consecutively from the counter and belong to the report. Row `i` stores exactly the column values of item `i`, one normalised value per column. |
| Tables.InsertedCount | server.js:83-92 | The `forEach` inserts the leading items up to the first null item, where reading `area.descricao` throws. |
| Tables.ReplaceReadsBack | server.js:80-92 | After a replace, the report's rows are exactly the new rows, in order. Every other report's rows are as they were. |
| Tables.RowsOfSplit | server.js:80 | `DELETE ... WHERE avaliacao_id = ?` leaves the rows of every other report untouched. |
| Tables.RowsOf | server.js:150 | `SELECT ... WHERE avaliacao_id = ?` returns only rows of that report. |
| Tables.RowsNotOf | server.js:80 | `DELETE ... WHERE avaliacao_id = ?` leaves no row of that report. |
| Tables.RowsPartition | server.js:80-150 | Every row is selected by exactly one of the two `WHERE` clauses: the selected and the remaining rows together are the table, as a multiset. |
| Tables.RowFields | server.js:150 | A row object has exactly one key per column. |
| Tables.RowObject | server.js:150-154 | A row as `SELECT *` returns it is an object with the columns, `id` and `avaliacao_id`, and no other key. `id` and `avaliacao_id` hold the row's id and report. |
| Tables.ResaveIsStable | server.js:150-159 | A row loaded by the client and sent back unchanged is stored with the same values. |
| Tables.ColumnListsAreProper | server.js:82-84 | The area and comparable column lists have distinct names that do not clash with `id` or `avaliacao_id`. |
| Tables.ChildTable.Replace | server.js:77-102 | Other reports' rows are kept in order, and the report's new rows follow them. The counter advances by the number of rows inserted. `ok` holds exactly when no null item stopped the loop. Ids stay increasing and below the counter, and every row keeps one normalised value per column. |
| Tables.UploadedFotos | server.js:352-370 | Row `i` has `ordem = i`, the stored path of file `i`, id `firstId + i`, and the caption `legenda_i` or the original name. |
| Tables.FotoIdsUnique | server.js:411-418 | Increasing ids are unique, so the id found by `SELECT` names one row. |
| Tables.FotoDeleteRow | server.js:413-418 | `DELETE ... WHERE id = ?` removes exactly the row found, and the remaining ids stay ordered. |
| Tables.DocumentoDeleteRow | server.js:429-434 | The same for documents. |
| Tables.FotoTable.Upload | server.js:346-378 | A missing report id is a 400 error that inserts nothing. Otherwise one row per file is appended, as `UploadedFotos` builds them, and those rows are returned. |
| Tables.FotoTable.Delete | server.js:411-425 | An id that is not found reports not-found and leaves the table unchanged. Otherwise exactly that row goes, and its stored path is the file to unlink. |
| Tables.DocumentKind | server.js:393 | `tipo \|\| 'anexo'`: never empty, `anexo` by default. |
| Tables.DocumentoTable.Upload | server.js:380-409 | A missing report id, then a missing file, are 400 errors that insert nothing. Otherwise one row is appended with the default kind, the original name and the stored path. |
| Tables.DocumentoTable.Delete | server.js:427-441 | An id that is not found leaves the table unchanged. Otherwise exactly that row goes, and its stored path is the file to unlink. |
| FormEdits.RemoveAll | public/js/app.js:174 | `replace(/\./g, '')` leaves no dot and never lengthens the text. |
| FormEdits.RemoveAllAppend | public/js/app.js:174 | Removing dots distributes over concatenation. |
| FormEdits.ReplaceFirst | public/js/app.js:174 | `replace(',', '.')` changes only the first comma. |
| FormEdits.CurrencyText | public/js/app.js:172-175 | An empty value short-circuits. Otherwise the text is as long as the value without dots, and holds at most one point with no comma before it. |
| FormEdits.FirstCommaBecomesPoint | public/js/app.js:174 | In a text without points, turning the first comma into a point leaves at most one point, with no comma before it. |
| FormEdits.GroupedUngroups | public/js/app.js:174 | Dropping the dots of a pt-BR grouped digit string gives the digits back. |
| FormEdits.CurrencyRoundTrip | public/js/app.js:172-175 | `1.234.567,89` becomes `1234567.89`: the grouped digits and cents read back as digits, a point and the cents. |
| FormEdits.CurrencyPlainDigits | public/js/app.js:174 | A plain digit string passes through unchanged. |
| FormEdits.Lines | public/js/app.js:633 | `split(/\r?\n/)` gives as many lines as there are LF-separated pieces, none holding a line feed. |
| FormEdits.LinesOfLF | public/js/app.js:633 | Lines joined with LF read back as the same lines. |
| FormEdits.LinesOfCRLF | public/js/app.js:633 | Lines joined with CRLF read back as the same lines. |
| FormEdits.AreaFromParts | public/js/app.js:635-638 | A line gives an area exactly when its first part is non-empty. The first five parts go under `descricao`, `largura`, `comprimento`, `area` and `tipo`. A missing part leaves its field absent, and extra parts are ignored. |
| FormEdits.AreaFromLine | public/js/app.js:635-638 | A line gives an area exactly when the text before its first `;` is non-empty. That text is the area's `descricao`. |
| FormEdits.ImportedAreas | public/js/app.js:633-639 | No more areas than lines are imported. |
| FormEdits.ImportedAreasDescribed | public/js/app.js:636-637 | Every imported area has a non-empty string description. |
| FormEdits.AreaLineRoundTrip | public/js/app.js:635-638 | A clean row written as one line imports as that row's area. |
| FormEdits.ImportedAreasOfRows | public/js/app.js:634-639 | A list of clean lines imports as their areas, in order. |
| FormEdits.ImportFile | public/js/app.js:633-639 | A file of clean rows joined with LF imports as exactly those rows' areas, in order. |
| FormEdits.RemoveAt | public/js/app.js:621 | `splice(idx, 1)` removes the element at `idx`. A negative index counts from the end and is clamped at the start; an index past the end removes nothing. |
| FormEdits.RemoveAtPermutation | public/js/app.js:677 | A splice at a valid index shortens the list by one, and the rest is the old list minus exactly that element, as a multiset. |
| FormEdits.NormalizeSlashes | public/js/app.js:894 | `replace(/\\/g, '/')` keeps the length, leaves no backslash, and changes only backslashes. |
| FormEdits.NormalizeSlashesIdempotent | public/js/app.js:988-989 | Normalising twice is normalising once. |
| FormEdits.NormalizeJoin | public/js/app.js:988 | A path joined with backslashes reads as the same segments joined with slashes. |
| Client.StorageKey | public/js/app.js:1230 | The cache key is `avaliacao-pericial-` followed by the control number, and nothing else. |
| Client.Section | public/js/app.js:23-107 | Each section of the skeleton is a string or an object of strings. |
| Client.Defaults | public/js/app.js:23-107 | The skeleton has exactly the sixteen section keys, each flat. |
| Client.DefaultsHaveNoArrays | public/js/app.js:23-107 | No path into the skeleton meets an array, so `setValue` on it never walks through one. |
| Client.RestoredDados | public/js/app.js:1229-1240 | No cache, an empty entry, an unparsable entry or a parsed null (which throws) leaves the data as it was. Otherwise the data is an object holding every section of the skeleton. |
| Client.RestoredList | public/js/app.js:1235-1236 | A list is replaced only when the cached value really is an array, and kept otherwise. |
| Client.RestoreKeepsSkeleton | public/js/app.js:1234 | Every path of the skeleton survives a restore, provided the cached data keeps the skeleton's shape. |
| Client.RestoreFromSnapshot | public/js/app.js:1234 | A snapshot with an object under `dados` restores exactly that object merged into the skeleton. |
| Client.CachedLeafWins | public/js/app.js:1234 | A non-object value the cache holds at a path is what the form holds there after restoring. |
| Client.RestoreWithoutDados | public/js/app.js:1234 | A snapshot without usable `dados` restores the bare skeleton. |
| Client.CachedDados | public/js/app.js:1234 | `parsed.dados \|\| {}`: a truthy `dados` of a parsed object is taken as it is. A missing or falsy `dados`, or a parsed value that is not an object, gives `{}`. |
| Client.CachedList | public/js/app.js:1235-1236 | A cached list exists exactly when the entry parsed to an object whose field is an array. It is that array, whole. |
| Client.LocalSnapshot | public/js/app.js:946-955 | What `salvarLocalmente` writes is what `restaurarDoLocalStorage` reads back: both lists come back whole, and truthy data comes back as it is. |
| Client.RestoreOwnSnapshot | public/js/app.js:946-955 | Saving restored data locally and restoring it again gives the same data. |
| Client.RestoreOwnLists | public/js/app.js:1235-1236 | A snapshot's lists come back as they were saved. |
| Client.RowObjects | public/js/app.js:986-987 | `{ ...row }` for every row, in order. |
| Client.NormalizedFotos | public/js/app.js:988 | Each photo keeps its id, caption and order. Its path is normalised and holds no backslash. |
| Client.NormalizedDocumentos | public/js/app.js:989 | Each document keeps its id, kind and name. Its path is normalised and holds no backslash. |
| Client.FormState.SetValue | public/js/app.js:149-159 | The data becomes the functional write. A `TypeError` leaves it unchanged. Through plain objects, `getValue` reads the value back. |
| Client.FormState.Restore | public/js/app.js:1229-1240 | The data and both lists become their restored values. |
| Client.FormState.Load | public/js/app.js:978-990 | The current report is set. The data is the server's data merged into the skeleton, then restored. The lists are row copies, then restored. Photo and document paths are normalised. |
| Client.FormState.ImportAreas | public/js/app.js:633-639 | The areas of the file's lines are appended, in order. |
| Client.FormState.RemoveArea | public/js/app.js:621 | The areas become the splice of the old ones. |
| Client.FormState.RemoveComparativo | public/js/app.js:677 | The comparables become the splice of the old ones. |
| Client.FormState.RemoveFoto | public/js/app.js:814 | The photos become the old ones without that id. |
| Client.FormState.RemoveDocumento | public/js/app.js:840 | The documents become the old ones without that id. |
| Client.FormState.AddUploadedFotos | public/js/app.js:892-896 | The new photos, with normalised paths, are appended. |
| Client.FormState.AddUploadedDocumento | public/js/app.js:923 | The new document, with a normalised path, is appended. |
| Client.ImportedAreaStored | server.js:84-91 | An imported area, once saved, stores each of its first five parts under the matching column, and null for a missing or empty part. |

## Left out

- Rendering, event wiring, maps, charts and PDF export: user interface and foreign libraries.
- `fetch`, `FileReader`, `localStorage` and `JSON.parse`/`JSON.stringify`: I/O and parsing. The parsed cache entry (`Client.Cached`) and the server's report (`Client.ServerReport`) are inputs.
- `scheduleSave`'s debounce and the unordered writes to the cache and the server: timing and concurrency.
- `Number(...)` in `parseCurrency`, `formatCurrency` and the area product with `toFixed`: floating point. Only the string step is modelled, and JavaScript numbers are integers in the model.
- The clock: the upload timestamp (`Date.now()`), today's date in the skeleton and the year of a new control number are parameters.
- The SQLite lookup of the year's newest control number is a parameter. Concurrent generation of control numbers is left out as concurrency.
- `parseInt` precision: sequences beyond 2^53 lose digits in JavaScript, and the model's integers are unbounded.
- `path.join` and `path.relative`: the normalisation of POSIX paths is modelled (`Uploads.Resolve`, `Uploads.RelativePath`). Windows separators and drive letters are not. `fs.mkdirSync`, file writes and `unlinkSync` are file-system I/O.
- Uploads.RelativePath: a directory that climbs above the server's directory is recorded as `..` pieces followed by the names. `path.relative` shortens such a path when the names lead back into the server's directory, which depends on that directory's own name; the model does not know it.
- Uploads.Destination: models the code as written, which takes `controle` and `tipo` from the request without checking them; `path.join` then resolves `..` and `/` inside them, so a request can place a file outside `uploads` (see Findings). `Uploads.CheckedDestination` is the corrected rule.
- Uploads.Destination: its body inputs are only the text fields that precede the file in the multipart body, since multer fills `req.body` as the parts stream in (`Uploads.DestinationAt`). A field name repeated in one body is not modelled; the client never repeats one.
- Tables.FotoTable.Upload, Tables.DocumentoTable.Upload: model the handlers once multer has stored the files. With the client's own field order multer refuses the files before the handlers run (see Findings).
- Tables.ChildTable.Replace: takes the new rows as a list. In the source, a request body with `"areas": null` or `"areas": {}` queues the `DELETE` (server.js:80), and then `forEach` throws: the report's rows are deleted, none are inserted, and the server answers 500. The model cannot express a body that is not a list.
- Tables.UploadedFotos: gives photo `i` the id `firstId + i`. The `db.run` calls at server.js:352-373 are not inside `db.serialize`, so the ids follow the order in which SQLite runs the INSERTs. The model assumes map order; another order is concurrency and is left out.
- SQLite type affinity: ids arrive as strings from route parameters and are compared as numbers. The model uses integers throughout.
- Errors from the database driver (`err` callbacks, `stmt.finalize` errors) and the 500 responses they produce.
- `obterRelacoes`'s join of four asynchronous queries and its `ORDER BY ordem, id` for photos: the server's report arrives already assembled.
- database/db.js is not part of this model: it holds only DDL that the engine enforces. The model stores bound parameters as they are, without SQLite's column affinity.
- Tables.ResaveIsStable: states the bound parameters, not the values SQLite keeps. The REAL columns (`largura`, `comprimento`, `area` of areas; `valor`, `area`, `latitude`, `longitude` of comparables) convert numeric text, so `"1.50"` is stored as the number 1.5 and returned as 1.5. A value that SQLite stores as the number 0 is falsy when the client sends it back, so `0 || null` saves it as null.
- Client.ImportedAreaStored: states the bound parameters, not the stored values. The imported `largura`, `comprimento` and `area` texts are converted by the REAL columns' affinity (`"1.50"` becomes 1.5, `"0"` becomes 0), and a stored 0 becomes null on the next save.
- Json.Merge: merging an array into a plain object, or a plain object into an array, keeps the target unchanged. In JavaScript a plain-object target gains the keys `"0"` to `"n-1"`, each merged or copied from the array's elements. Those keys survive `JSON.stringify`, so they persist in the cache and on the server. For example, `mergeDeep(defaultDados(), [{a:1}, "x"])` is the skeleton plus `"0": {a:1}` and `"1": "x"`. An object merged into an array target sets elements for its index keys (`mergeDeep([1,2], {"0":5})` is `[5,2]`, and `{"3":"x"}` makes `[1,2,null,"x"]` once stringified), a `length` key truncates or extends the array or throws `RangeError`, and any other key becomes a named property that `JSON.stringify` drops. A source key `__proto__`, which `JSON.parse` makes an own key, is assigned at app.js:142 as the result's prototype rather than as a key, so the key-union property does not hold for it in JavaScript; the model treats it as an ordinary key.
- Json.SetPath, Client.FormState.SetValue: require that no array lies on the path, because `key in ref` on an array reads indices and `length`. The form paths meet only skeleton objects when the server's and the cached data keep the skeleton's shape; data that puts an array where the skeleton has a section (`dados.cabecalho = []`, say) is not covered.
- Client.FormState.SetValue: a property written on a primitive is dropped, as in the sloppy-mode script. Aliasing between objects in the in-place tree is not modelled, because the model rebuilds the path as values.
- FormEdits.AreaFromParts: JavaScript's `{ descricao, largura, ... }` keeps `undefined` values under their keys. The model leaves those keys out, which makes no difference once the area is saved (`x || null`) or serialised.
- Text.Split, Json.Property, Uploads.Sanitize: strings are sequences of characters, not UTF-16 code units. `Json.Property` counts `length` and indexes in characters, where JavaScript counts code units. `Uploads.Sanitize` turns a character outside the Basic Multilingual Plane into one `_`, where the regular expression without the `u` flag makes two.
- Json.GetValue: `acc[key]` on numbers and booleans reads no property, and prototype properties such as `toString` are not modelled.

## Findings

| source | as written | input that shows it | evidently intended | confidence | as-written member | corrected member |
|---|---|---|---|---|---|---|
| server.js:19-24 | `req.body.controle` is read while multer streams the body, when only the fields before the file have arrived; the client appends `controle` after its files (app.js:874-882, 909-913) and sends no query string. | Any photo or document upload from the client: `destination` finds no `controle` and answers "Número de controle não informado.". | The client sends `controle` and `tipo` before its files, so every upload lands in `uploads/<controle>/<tipo>`. | not executed | Uploads.PhotoUploadRefused | Uploads.CorrectedPhotoUploadAccepted |
| public/js/app.js:909-914 | `uploadDocumento` appends the file first, then `controle`, `avaliacaoId` and `tipo`. | Any document upload: the file is the first part, so `req.body` is empty when `destination` runs. | The text fields precede the file, so the document lands in `uploads/<controle>/<tipo>`. | not executed | Uploads.DocumentUploadRefused | Uploads.CorrectedDocumentUploadAccepted |
| server.js:19-24 | The upload directory is `path.join(__dirname, 'uploads', controle, tipo)`, with `controle` and `tipo` taken from the request unchecked. | `controle = "../public"` with no `tipo`: the file is written to `public/outros`, inside the web root that server.js:15 publishes. | Uploads go only below `uploads`; a `controle` or `tipo` that is not a plain directory name is refused. | not executed | Uploads.DestinationEscapes | Uploads.CheckedDestination |
